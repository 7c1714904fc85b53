/** The ECMAScript number layout of the strict canonical profile (section
    3.2.2.3 of RFC 8785), applied to the decimal text of a finite float. */
module Es6Number {
  import opened Options
  import opened Numerals

  function StripLeading(s: string): (r: string)
    requires AllDigits(s)
    ensures AllDigits(r) && |r| <= |s| && r == s[|s| - |r|..]
  {
    if s != [] && s[0] == '0' then StripLeading(s[1..]) else s
  }

  function StripTrailing(s: string): (r: string)
    requires AllDigits(s)
    ensures AllDigits(r) && |r| <= |s| && (s != [] ==> r != [])
  {
    if |s| > 1 && s[|s| - 1] == '0' then StripTrailing(s[..|s| - 1]) else s
  }

  /** Stripped significant digits and the position of the decimal point. */
  datatype Significand = Significand(digits: string, point: int)

  function SignificandOf(p: Parts): (r: Significand)
    requires AllDigits(p.whole) && AllDigits(p.fraction) && p.whole != ""
    ensures AllDigits(r.digits) && r.digits != ""
  {
    var digits := p.whole + p.fraction;
    var lead := StripLeading(digits);
    Significand(StripTrailing(if lead == "" then "0" else lead),
                |p.whole| - (|digits| - |lead|) + p.exponent)
  }

  function PowerText(e: int): string {
    if e >= 0 then "+" + NatText(e) else "-" + NatText(-e)
  }

  /** The pieces of a written number; `power` is empty without an exponent. */
  datatype Layout = Layout(whole: string, fraction: string, power: string)

  /** One of the four layouts, selected by the position of the point. */
  function LayoutOf(s: Significand): Layout
    requires s.digits != ""
  {
    var digits, count, n := s.digits, |s.digits|, s.point;
    if count <= n <= 21 then Layout(digits + Zeros(n - count), "", "")
    else if 0 < n <= 21 then Layout(digits[..n], digits[n..], "")
    else if -6 < n <= 0 then Layout("0", Zeros(-n) + digits, "")
    else Layout(digits[..1], digits[1..], PowerText(n - 1))
  }

  function Write(negative: bool, l: Layout): string {
    Compose(negative, l.whole, l.fraction, l.power)
  }

  predicate IsZero(text: string)
    requires IsNumeral(text)
  {
    Value(text).mantissa == 0
  }

  /** The canonical text of a finite float, given the text of its `repr`. */
  function Text(repr: string): string
    requires IsNumeral(repr)
  {
    if IsZero(repr) then "0"
    else
      var p := Scan(repr).value;
      Write(p.negative, LayoutOf(SignificandOf(p)))
  }

  // ---- the layout as a function of the number alone ----

  function Magnitude(m: int): nat { if m < 0 then -m else m }

  /** Digits and point of a number in normal form. */
  function NormalSignificand(v: Decimal): (s: Significand)
    ensures s.digits != "" && AllDigits(s.digits)
  {
    var digits := NatText(Magnitude(v.mantissa));
    Significand(digits, v.exponent + |digits|)
  }

  /** The text that a number in normal form is given. */
  function Render(v: Decimal): string {
    if v.mantissa == 0 then "0" else Write(v.mantissa < 0, LayoutOf(NormalSignificand(v)))
  }

  lemma {:induction false} StripLeadingDigits(s: string)
    requires AllDigits(s)
    ensures var r := StripLeading(s);
      Digits(r) == Digits(s) && (r == "" || r[0] != '0')
  {
    if s != [] && s[0] == '0' {
      var rest := s[1..];
      assert "0" + rest == s;
      StripLeadingDigits(rest);
      DigitsLeadingZeros("0", rest);
    }
  }

  lemma {:induction false} StripTrailingDigits(s: string, e: int, scale: int)
    requires AllDigits(s) && s != "" && s[0] != '0'
    requires scale == e + |s| - |StripTrailing(s)|
    ensures Stripped(StripTrailing(s)) && Normal(Digits(StripTrailing(s)), scale) == Normal(Digits(s), e)
    decreases |s|
  {
    if |s| > 1 && s[|s| - 1] == '0' {
      var front := s[..|s| - 1];
      StripTrailingDigits(front, e + 1, scale);
      DigitsTrailingZero(front);
      assert front + "0" == s;
      NormalTimesTen(Digits(front), e);
    }
  }

  lemma StrippedIsNormal(s: string, e: int)
    requires Stripped(s)
    ensures Normal(Digits(s), e) == Decimal(Digits(s), e) && Digits(s) > 0
    ensures NatText(Digits(s)) == s
  {
    NatTextOfDigits(s);
    assert Digits(s) % 10 == DigitOf(s[|s| - 1]);
  }

  lemma NormalNegate(m: int, e: int)
    ensures Normal(-m, e) == Decimal(-Normal(m, e).mantissa, Normal(m, e).exponent)
    decreases if m < 0 then -m else m
  {
    if m != 0 && m % 10 == 0 {
      NormalNegate(m / 10, e + 1);
      assert (-m) / 10 == -(m / 10);
    }
  }

  lemma NormalSigned(negative: bool, a: nat, i: int, b: nat, j: int)
    requires Normal(a, i) == Normal(b, j)
    ensures Normal(Signed(negative, a), i) == Normal(Signed(negative, b), j)
  {
    NormalNegate(a, i);
    NormalNegate(b, j);
  }

  /** The stripped digits and the point are read off the number's normal form. */
  lemma SignificandIsNormal(p: Parts)
    requires AllDigits(p.whole) && AllDigits(p.fraction) && p.whole != ""
    requires PartsValue(p).mantissa != 0
    ensures var s := SignificandOf(p);
      && Stripped(s.digits)
      && PartsValue(p) == Decimal(Signed(p.negative, Digits(s.digits)), s.point - |s.digits|)
  {
    var digits := p.whole + p.fraction;
    var e := p.exponent - |p.fraction|;
    var lead := StripLeading(digits);
    StripLeadingDigits(digits);
    PartsNumber(p, Digits(digits), e);
    NonZeroLead(p.negative, lead, e);
    StrippedNumber(p.negative, lead, e, e + |lead| - |StripTrailing(lead)|);
  }

  lemma NonZeroLead(negative: bool, lead: string, e: int)
    requires AllDigits(lead) && Normal(Signed(negative, Digits(lead)), e).mantissa != 0
    ensures lead != ""
  {
    assert Digits("") == 0;
  }

  lemma StrippedNumber(negative: bool, lead: string, e: int, scale: int)
    requires AllDigits(lead) && lead != "" && lead[0] != '0'
    requires scale == e + |lead| - |StripTrailing(lead)|
    ensures Stripped(StripTrailing(lead))
    ensures Normal(Signed(negative, Digits(lead)), e) == Decimal(Signed(negative, Digits(StripTrailing(lead))), scale)
  {
    var s := StripTrailing(lead);
    StripTrailingDigits(lead, e, scale);
    NormalSigned(negative, Digits(lead), e, Digits(s), scale);
    StrippedIsNormal(s, scale);
    SignedStripped(negative, Digits(s), scale);
  }

  lemma SignedStripped(negative: bool, n: nat, e: int)
    requires Normal(n, e) == Decimal(n, e)
    ensures Normal(Signed(negative, n), e) == Decimal(Signed(negative, n), e)
  {
    NormalNegate(n, e);
  }

  lemma NormalParts(v: Decimal, negative: bool, s: Significand)
    requires Stripped(s.digits) && v == Decimal(Signed(negative, Digits(s.digits)), s.point - |s.digits|)
    ensures NormalSignificand(v) == s && (v.mantissa < 0) == negative && v.mantissa != 0
  {
    NatTextOfDigits(s.digits);
    assert Magnitude(v.mantissa) == Digits(s.digits);
  }

  /** The layout depends on the number alone, never on how it was written. */
  lemma TextIsRender(repr: string)
    requires IsNumeral(repr)
    ensures Text(repr) == Render(Value(repr))
  {
    var p := Scan(repr).value;
    if !IsZero(repr) {
      SignificandIsNormal(p);
      NormalParts(PartsValue(p), p.negative, SignificandOf(p));
    }
  }

  // ---- the layout keeps the number ----

  lemma {:induction false} AppendZeros(s: string, n: nat, e: int, scale: int)
    requires AllDigits(s) && scale == e + n
    ensures AllDigits(s + Zeros(n)) && Normal(Digits(s + Zeros(n)), e) == Normal(Digits(s), scale)
    decreases n
  {
    if n == 0 {
      assert s + Zeros(0) == s;
    } else {
      AppendZeros(s, n - 1, e + 1, scale);
      DigitsTrailingZero(s + Zeros(n - 1));
      assert s + Zeros(n) == s + Zeros(n - 1) + "0";
      NormalTimesTen(Digits(s + Zeros(n - 1)), e);
    }
  }

  lemma PowerTextReads(e: int)
    ensures IsSignedDigits(PowerText(e)) && PowerOf(PowerText(e)) == e
  {
    var m: nat := if e < 0 then -e else e;
    DigitsOfNatText(m);
    assert PowerText(e)[1..] == NatText(m);
  }

  ghost predicate WellFormed(l: Layout) {
    && AllDigits(l.whole) && l.whole != "" && AllDigits(l.fraction)
    && (l.power == "" || IsSignedDigits(l.power))
  }

  /** Three layouts only place the point among the digits, padded in front;
      the fourth appends the zeros that the point has moved past. */
  lemma LayoutDigits(s: Significand, e: int)
    requires AllDigits(s.digits) && s.digits != "" && e == s.point - |s.digits|
    requires WellFormed(LayoutOf(s))
    ensures var l := LayoutOf(s);
      || (e >= 0 && l == Layout(s.digits + Zeros(e), "", ""))
      || (Digits(l.whole + l.fraction) == Digits(s.digits) && PowerOf(l.power) - |l.fraction| == e)
  {
    if |s.digits| <= s.point <= 21 {
    } else if 0 < s.point <= 21 {
      PointInside(s, e);
    } else if -6 < s.point <= 0 {
      PointBefore(s, e);
    } else {
      PointByPower(s, e);
    }
  }

  lemma PointInside(s: Significand, e: int)
    requires AllDigits(s.digits) && e == s.point - |s.digits| && 0 < s.point < |s.digits|
    ensures var l := Layout(s.digits[..s.point], s.digits[s.point..], "");
      AllDigits(l.whole + l.fraction) && Digits(l.whole + l.fraction) == Digits(s.digits) && -|l.fraction| == e
  {
    CutDigits(s.digits, s.point);
  }

  lemma PointBefore(s: Significand, e: int)
    requires AllDigits(s.digits) && e == s.point - |s.digits| && s.point <= 0
    ensures var l := Layout("0", Zeros(-s.point) + s.digits, "");
      AllDigits(l.whole + l.fraction) && Digits(l.whole + l.fraction) == Digits(s.digits) && -|l.fraction| == e
  {
    PaddedDigits(-s.point, s.digits);
  }

  lemma PointByPower(s: Significand, e: int)
    requires AllDigits(s.digits) && s.digits != "" && e == s.point - |s.digits|
    ensures var l := Layout(s.digits[..1], s.digits[1..], PowerText(s.point - 1));
      && AllDigits(l.whole + l.fraction) && Digits(l.whole + l.fraction) == Digits(s.digits)
      && IsSignedDigits(l.power) && PowerOf(l.power) - |l.fraction| == e
  {
    PowerTextReads(s.point - 1);
    CutDigits(s.digits, 1);
  }

  lemma CutDigits(digits: string, n: nat)
    requires n <= |digits|
    ensures digits[..n] + digits[n..] == digits && |digits[n..]| == |digits| - n
  {
  }

  lemma PaddedDigits(n: nat, digits: string)
    requires AllDigits(digits)
    ensures AllDigits("0" + (Zeros(n) + digits)) && Digits("0" + (Zeros(n) + digits)) == Digits(digits)
  {
    DigitsLeadingZeros("0" + Zeros(n), digits);
    assert "0" + (Zeros(n) + digits) == ("0" + Zeros(n)) + digits;
  }

  lemma LayoutNumber(s: Significand, l: Layout, e: int, scale: int)
    requires AllDigits(s.digits) && s.digits != "" && WellFormed(l)
    requires scale == PowerOf(l.power) - |l.fraction|
    requires || (e >= 0 && l == Layout(s.digits + Zeros(e), "", ""))
             || (Digits(l.whole + l.fraction) == Digits(s.digits) && scale == e)
    ensures Normal(Digits(l.whole + l.fraction), scale) == Normal(Digits(s.digits), e)
  {
    if e >= 0 && l == Layout(s.digits + Zeros(e), "", "") {
      AppendZeros(s.digits, e, 0, e);
      assert s.digits + Zeros(e) + "" == s.digits + Zeros(e);
    }
  }

  lemma LayoutWellFormed(s: Significand)
    requires AllDigits(s.digits) && s.digits != ""
    ensures WellFormed(LayoutOf(s))
  {
    PowerTextReads(s.point - 1);
  }

  /** Whatever the layout, the written number is digits * 10^(point - count). */
  lemma WriteValue(negative: bool, s: Significand, e: int)
    requires AllDigits(s.digits) && s.digits != "" && e == s.point - |s.digits|
    ensures IsNumeral(Write(negative, LayoutOf(s)))
    ensures Value(Write(negative, LayoutOf(s))) == Normal(Signed(negative, Digits(s.digits)), e)
  {
    LayoutWellFormed(s);
    var l := LayoutOf(s);
    var scale := PowerOf(l.power) - |l.fraction|;
    var n := Digits(l.whole + l.fraction);
    LayoutDigits(s, e);
    LayoutNumber(s, l, e, scale);
    ComposeValue(negative, l.whole, l.fraction, l.power, n, scale);
    NormalSigned(negative, n, scale, Digits(s.digits), e);
  }

  lemma NormalFixed(v: Decimal)
    requires v.mantissa % 10 != 0
    ensures Normal(v.mantissa, v.exponent) == v
  {
  }

  lemma RenderValue(v: Decimal)
    requires v.mantissa % 10 != 0 || v == Decimal(0, 0)
    ensures IsNumeral(Render(v)) && Value(Render(v)) == v
  {
    if v.mantissa == 0 {
      IntTextNumeral(0);
      assert IntText(0) == "0";
    } else {
      DigitsOfNatText(Magnitude(v.mantissa));
      WriteValue(v.mantissa < 0, NormalSignificand(v), v.exponent);
      assert Signed(v.mantissa < 0, Magnitude(v.mantissa)) == v.mantissa;
      NormalFixed(v);
    }
  }

  lemma ValueIsNormal(repr: string)
    requires IsNumeral(repr)
    ensures Value(repr).mantissa % 10 != 0 || Value(repr) == Decimal(0, 0)
  {
    var p := Scan(repr).value;
    var m := Signed(p.negative, Digits(p.whole + p.fraction));
    if m != 0 { NormalDivides(m, p.exponent - |p.fraction|); }
  }

  /** The canonical text is a numeral of exactly the number that was given. */
  lemma TextKeepsValue(repr: string)
    requires IsNumeral(repr)
    ensures IsNumeral(Text(repr)) && Value(Text(repr)) == Value(repr)
  {
    TextIsRender(repr);
    ValueIsNormal(repr);
    RenderValue(Value(repr));
  }

  /** Equal numbers, and only equal numbers, have equal canonical texts. */
  lemma TextIsCanonical(a: string, b: string)
    requires IsNumeral(a) && IsNumeral(b)
    ensures Text(a) == Text(b) <==> Value(a) == Value(b)
  {
    TextKeepsValue(a);
    TextKeepsValue(b);
    TextIsRender(a);
    TextIsRender(b);
  }

  // ---- when an exponent is written ----

  /** The magnitude of a nonzero number is at least 10^k. */
  predicate AtLeast(v: Decimal, k: int) {
    v.exponent >= k || Magnitude(v.mantissa) >= PowNat(k - v.exponent)
  }

  lemma SignHasNoE(negative: bool, body: string)
    ensures 'e' in (if negative then "-" else "") + body <==> 'e' in body
  {
    if negative {
      var t := "-" + body;
      assert forall i :: 0 <= i < |body| ==> t[i + 1] == body[i];
      assert t[0] != 'e';
    } else {
      assert "" + body == body;
    }
  }

  lemma ExponentShows(negative: bool, whole: string, fraction: string, power: string)
    requires AllDigits(whole) && AllDigits(fraction)
    ensures 'e' in Compose(negative, whole, fraction, power) <==> power != ""
  {
    var mantissa := whole + (if fraction == "" then "" else "." + fraction);
    SplitMantissa(whole, fraction);
    SplitBody(mantissa, power);
    var body := mantissa + (if power == "" then "" else "e" + power);
    SignHasNoE(negative, body);
    ComposeIs(negative, whole, fraction, power);
  }

  lemma ComposeIs(negative: bool, whole: string, fraction: string, power: string)
    ensures var mantissa := whole + (if fraction == "" then "" else "." + fraction);
      Compose(negative, whole, fraction, power)
      == (if negative then "-" else "") + (mantissa + (if power == "" then "" else "e" + power))
  {
  }

  lemma PowerIff(s: Significand)
    requires s.digits != ""
    ensures LayoutOf(s).power != "" <==> s.point > 21 || s.point <= -6
  {
  }

  lemma PointRange(v: Decimal, count: nat, k: int)
    requires v.mantissa != 0 && count == |NatText(Magnitude(v.mantissa))|
    ensures v.exponent + count > k <==> AtLeast(v, k)
  {
    if v.exponent < k { NatTextLength(Magnitude(v.mantissa), k - v.exponent); }
  }

  /** A number is written with an exponent exactly when its magnitude is 10^21 or
      more, or less than 10^-6, as section 3.2.2.3 of RFC 8785 demands. */
  lemma ExponentExactlyOutside(repr: string)
    requires IsNumeral(repr) && Value(repr).mantissa != 0
    ensures 'e' in Text(repr) <==> AtLeast(Value(repr), 21) || !AtLeast(Value(repr), -6)
  {
    TextIsRender(repr);
    RenderExponent(Value(repr), Render(Value(repr)));
  }

  lemma RenderExponent(v: Decimal, text: string)
    requires v.mantissa != 0 && text == Render(v)
    ensures 'e' in text <==> AtLeast(v, 21) || !AtLeast(v, -6)
  {
    var s := NormalSignificand(v);
    var l := LayoutOf(s);
    LayoutWellFormed(s);
    PowerIff(s);
    PointRange(v, |s.digits|, 21);
    PointRange(v, |s.digits|, -6);
    ExponentShows(v.mantissa < 0, l.whole, l.fraction, l.power);
  }

  // ---- the shape of the text ----

  /** The text after the `e`; empty without one. */
  function WrittenPower(text: string): string { After(Unsigned(text), 'e') }

  predicate NoLeadingZero(digits: string) { digits != "" && digits[0] != '0' }

  predicate NoTrailingZero(digits: string) { digits == "" || digits[|digits| - 1] != '0' }

  /** A sign and digits without a leading zero. */
  predicate SignedPower(power: string) {
    |power| > 1 && (power[0] == '+' || power[0] == '-') && AllDigits(power[1..]) && NoLeadingZero(power[1..])
  }

  lemma {:induction false} NatTextEnds(n: nat)
    requires n % 10 != 0
    ensures NoLeadingZero(NatText(n)) && NoTrailingZero(NatText(n))
  {
    NatTextHead(n);
    var s := NatText(n);
    assert s[|s| - 1] == DigitChar(n % 10);
  }

  /** What the layouts look like, told from their parts. */
  ghost predicate Shaped(l: Layout) {
    && NoTrailingZero(l.fraction)
    && (if l.power != "" then |l.whole| == 1 && NoLeadingZero(l.whole) && SignedPower(l.power)
        else l.whole == "0" || NoLeadingZero(l.whole))
  }

  lemma PowerShape(e: int)
    requires e != 0
    ensures SignedPower(PowerText(e))
  {
    var t, n := PowerText(e), if e > 0 then e else -e;
    NatTextHead(n);
    assert t[1..] == NatText(n);
  }

  lemma LayoutShaped(s: Significand)
    requires NoLeadingZero(s.digits) && NoTrailingZero(s.digits)
    ensures Shaped(LayoutOf(s))
  {
    var digits, count, n := s.digits, |s.digits|, s.point;
    if count <= n <= 21 {
      HeadStays(digits, Zeros(n - count));
    } else if 0 < n <= 21 {
      CutEnds(digits, n);
    } else if -6 < n <= 0 {
      TailStays(Zeros(-n), digits);
    } else {
      PowerLayoutShaped(s, LayoutOf(s));
    }
  }

  lemma PowerLayoutShaped(s: Significand, l: Layout)
    requires NoLeadingZero(s.digits) && NoTrailingZero(s.digits) && s.point != 1
    requires l == Layout(s.digits[..1], s.digits[1..], PowerText(s.point - 1))
    ensures Shaped(l)
  {
    PowerShape(s.point - 1);
    CutEnds(s.digits, 1);
  }

  lemma HeadStays(digits: string, more: string)
    requires NoLeadingZero(digits)
    ensures NoLeadingZero(digits + more)
  {
    assert (digits + more)[0] == digits[0];
  }

  lemma TailStays(front: string, digits: string)
    requires digits != "" && NoTrailingZero(digits)
    ensures NoTrailingZero(front + digits)
  {
    var f := front + digits;
    assert f[|f| - 1] == digits[|digits| - 1];
  }

  lemma CutEnds(digits: string, n: nat)
    requires 0 < n <= |digits| && NoLeadingZero(digits) && NoTrailingZero(digits)
    ensures NoLeadingZero(digits[..n]) && NoTrailingZero(digits[n..])
  {
    if n < |digits| { assert digits[n..][|digits| - n - 1] == digits[|digits| - 1]; }
  }

  lemma ComposedPower(negative: bool, whole: string, fraction: string, power: string)
    requires AllDigits(whole) && whole != "" && AllDigits(fraction)
    ensures WrittenPower(Compose(negative, whole, fraction, power)) == power
  {
    var mantissa := whole + (if fraction == "" then "" else "." + fraction);
    SplitMantissa(whole, fraction);
    SplitBody(mantissa, power);
    var body := mantissa + (if power == "" then "" else "e" + power);
    ComposeIs(negative, whole, fraction, power);
    UnsignedBody(negative, body);
    if power == "" { IndexOfAbsent(body, 'e'); }
  }

  lemma UnsignedBody(negative: bool, body: string)
    requires body != "" && body[0] != '-'
    ensures Unsigned((if negative then "-" else "") + body) == body
  {
    if negative { assert ("-" + body)[1..] == body; } else { assert "" + body == body; }
  }

  /** The text of a number other than zero, read back: a minus sign exactly for negative
      numbers; with an exponent one digit before the point, not zero, and a signed power
      without leading zeros; without one a zero or digits without a leading zero before
      the point; never a trailing zero behind it. */
  lemma TextShape(repr: string)
    requires IsNumeral(repr) && Value(repr).mantissa != 0
    ensures IsNumeral(Text(repr))
    ensures var t, q := Text(repr), Scan(Text(repr)).value;
      && (q.negative <==> Value(repr).mantissa < 0) && NoTrailingZero(q.fraction)
      && (if 'e' in t then |q.whole| == 1 && NoLeadingZero(q.whole) && SignedPower(WrittenPower(t))
          else q.whole == "0" || NoLeadingZero(q.whole))
  {
    TextIsRender(repr);
    ValueIsNormal(repr);
    RenderShape(Value(repr), Text(repr));
  }

  lemma RenderShape(v: Decimal, t: string)
    requires v.mantissa % 10 != 0 && t == Render(v)
    ensures IsNumeral(t)
    ensures var q := Scan(t).value;
      && (q.negative <==> v.mantissa < 0) && NoTrailingZero(q.fraction)
      && (if 'e' in t then |q.whole| == 1 && NoLeadingZero(q.whole) && SignedPower(WrittenPower(t))
          else q.whole == "0" || NoLeadingZero(q.whole))
  {
    var s := NormalSignificand(v);
    var l := LayoutOf(s);
    NatTextEnds(Magnitude(v.mantissa));
    LayoutWellFormed(s);
    LayoutShaped(s);
    ScanCompose(v.mantissa < 0, l.whole, l.fraction, l.power);
    ExponentShows(v.mantissa < 0, l.whole, l.fraction, l.power);
    ComposedPower(v.mantissa < 0, l.whole, l.fraction, l.power);
  }

  /** Zero of either sign is written as a single digit. */
  lemma ZeroText(repr: string)
    requires IsNumeral(repr)
    ensures Text(repr) == "0" <==> Value(repr).mantissa == 0
  {
    if Value(repr).mantissa != 0 {
      TextKeepsValue(repr);
      IntTextNumeral(0);
      assert IntText(0) == "0";
    }
  }

  /** The text of an integer: a minus sign exactly for negative ones, and digits without
      leading zeros that spell its magnitude. */
  lemma IntTextShape(n: int)
    ensures var t := IntText(n);
      && (t[0] == '-' <==> n < 0) && AllDigits(Unsigned(t)) && Digits(Unsigned(t)) == Magnitude(n)
      && (Unsigned(t) == "0" || NoLeadingZero(Unsigned(t)))
  {
    var m := Magnitude(n);
    DigitsOfNatText(m);
    if n != 0 { NatTextHead(m); }
    if n < 0 { assert IntText(n)[1..] == NatText(m); }
  }

  // ---- integers beside floats ----

  /** `str(n)` of an integer is the layout of its value exactly below 10^21.
      From there on an integer keeps all its digits while a float of the same
      value is written with an exponent. */
  lemma IntTextIsLayout(n: int)
    ensures IntText(n) == Render(Normal(n, 0)) <==> -(PowNat(21) as int) < n < PowNat(21)
  {
    if n == 0 {
      assert IntText(0) == "0";
    } else {
      var digits := NatText(Magnitude(n));
      NatTextLength(Magnitude(n), 21);
      NatTextHead(Magnitude(n));
      DigitsOfNatText(Magnitude(n));
      IntTextCompose(n);
      IntSignificand(n < 0, digits, n);
      IntLayout(n < 0, digits);
    }
  }

  lemma IntSignificand(negative: bool, digits: string, n: int)
    requires AllDigits(digits) && digits != "" && digits[0] != '0' && n == Signed(negative, Digits(digits))
    ensures NormalSignificand(Normal(n, 0)) == Significand(StripTrailing(digits), |digits|)
    ensures (Normal(n, 0).mantissa < 0) == negative && Normal(n, 0).mantissa != 0
  {
    var s := StripTrailing(digits);
    StrippedNumber(negative, digits, 0, |digits| - |s|);
    NormalParts(Normal(n, 0), negative, Significand(s, |digits|));
  }

  lemma {:induction false} StripTrailingRestores(s: string)
    requires AllDigits(s)
    ensures StripTrailing(s) + Zeros(|s| - |StripTrailing(s)|) == s
  {
    if |s| > 1 && s[|s| - 1] == '0' {
      StripTrailingRestores(s[..|s| - 1]);
    }
  }

  lemma IntLayout(negative: bool, digits: string)
    requires AllDigits(digits) && digits != ""
    ensures Write(negative, LayoutOf(Significand(StripTrailing(digits), |digits|))) == Compose(negative, digits, "", "")
       <==> |digits| <= 21
  {
    var s := StripTrailing(digits);
    var l := LayoutOf(Significand(s, |digits|));
    StripTrailingRestores(digits);
    if |digits| > 21 {
      LongLayout(Significand(s, |digits|));
      PowerShows(negative, l, digits);
    } else {
      assert l == Layout(digits, "", "");
    }
  }

  lemma LongLayout(s: Significand)
    requires AllDigits(s.digits) && s.digits != "" && s.point > 21
    ensures WellFormed(LayoutOf(s)) && PowerOf(LayoutOf(s).power) != 0
  {
    PowerTextReads(s.point - 1);
  }

  lemma PowerShows(negative: bool, l: Layout, digits: string)
    requires WellFormed(l) && PowerOf(l.power) != 0
    requires AllDigits(digits) && digits != ""
    ensures Write(negative, l) != Compose(negative, digits, "", "")
  {
    ScanCompose(negative, l.whole, l.fraction, l.power);
    ScanCompose(negative, digits, "", "");
  }

  // ---- the imperative renderer ----

  method Es6Text(repr: string) returns (body: string)
    requires IsNumeral(repr)
    ensures body == Text(repr)
  {
    if IsZero(repr) {
      return "0";
    }
    var p := Scan(repr).value;
    var s := StripDigits(p);
    body := Write(p.negative, LayoutOf(s));
  }

  /** `len(digits) - len(digits.lstrip("0"))`. */
  method CountLeadingZeros(digits: string) returns (stripped: nat)
    requires AllDigits(digits)
    ensures stripped <= |digits| && digits[stripped..] == StripLeading(digits)
  {
    stripped := 0;
    while stripped < |digits| && digits[stripped] == '0'
      invariant stripped <= |digits|
      invariant StripLeading(digits[stripped..]) == StripLeading(digits)
    {
      assert digits[stripped..][1..] == digits[stripped + 1..];
      stripped := stripped + 1;
    }
  }

  method DropTrailingZeros(all: string) returns (digits: string)
    requires AllDigits(all) && all != ""
    ensures digits == StripTrailing(all)
  {
    digits := all;
    while |digits| > 1 && digits[|digits| - 1] == '0'
      invariant AllDigits(digits) && digits != ""
      invariant StripTrailing(digits) == StripTrailing(all)
    {
      digits := digits[..|digits| - 1];
    }
  }

  /** Strips outer zeros from the digits and moves the point accordingly. */
  method StripDigits(p: Parts) returns (s: Significand)
    requires AllDigits(p.whole) && AllDigits(p.fraction) && p.whole != ""
    ensures s == SignificandOf(p)
  {
    var digits := p.whole + p.fraction;
    var point := |p.whole|;
    var stripped := CountLeadingZeros(digits);
    ghost var lead := StripLeading(digits);
    assert stripped == |digits| - |lead|;
    digits := if stripped < |digits| then digits[stripped..] else "0";
    point := point - stripped;
    digits := DropTrailingZeros(digits);
    s := Significand(digits, point + p.exponent);
  }
}

/** UTF-16 code units and the member-name order of section 3.2.3 of RFC 8785.
    A Dafny `char` is a Unicode scalar value, so lone surrogates cannot occur. */
module Utf16 {
  import opened Ordering

  function CharUnits(c: char): (u: seq<int>)
    ensures u != [] && forall i :: 0 <= i < |u| ==> 0 <= u[i] < 0x1_0000
  {
    var n := c as int;
    if n < 0x1_0000 then [n]
    else [0xD800 + (n - 0x1_0000) / 0x400, 0xDC00 + (n - 0x1_0000) % 0x400]
  }

  predicate IsUnits(u: seq<int>) {
    forall i :: 0 <= i < |u| ==> 0 <= u[i] < 0x1_0000
  }

  function Units(s: string): (u: seq<int>)
    ensures IsUnits(u)
  {
    if s == [] then [] else CharUnits(s[0]) + Units(s[1..])
  }

  /** Each code unit as two bytes, the high byte first. */
  function BigEndian(u: seq<int>): seq<int>
    requires IsUnits(u)
  {
    if u == [] then [] else [u[0] / 256, u[0] % 256] + BigEndian(u[1..])
  }

  /** `name.encode("utf-16-be")`, the sort key of an object member. */
  function KeyBytes(name: string): seq<int> {
    BigEndian(Units(name))
  }

  // ---- what the units are ----

  /** A character of the basic plane is one unit, its own number. */
  lemma BasicUnits(c: char)
    requires c as int < 0x1_0000
    ensures CharUnits(c) == [c as int]
  {
  }

  /** Any other is a high and a low surrogate, from which its number is computed. */
  lemma SurrogateUnits(c: char)
    requires c as int >= 0x1_0000
    ensures var u := CharUnits(c);
      && |u| == 2 && 0xD800 <= u[0] <= 0xDBFF && 0xDC00 <= u[1] <= 0xDFFF
      && c as int == 0x1_0000 + (u[0] - 0xD800) * 0x400 + (u[1] - 0xDC00)
  {
    var n := c as int - 0x1_0000;
    assert 0 <= n < 0x10_0000;
    assert n == (n / 0x400) * 0x400 + n % 0x400;
  }

  /** Names of the basic plane are compared as Python compares strings. */
  lemma {:induction false} UnitsAreCodes(s: string)
    requires forall i :: 0 <= i < |s| ==> s[i] as int < 0x1_0000
    ensures Units(s) == Codes(s)
  {
    if s != [] {
      BasicUnits(s[0]);
      UnitsAreCodes(s[1..]);
    }
  }

  /** The units of a name are those of its characters in turn. */
  lemma {:induction false} UnitsOfConcat(s: string, t: string)
    ensures Units(s + t) == Units(s) + Units(t)
  {
    if s == [] {
      assert s + t == t;
    } else {
      var c, r := s[0], s[1..];
      assert s == [c] + r && s + t == [c] + (r + t);
      UnitsOfConcat(r, t);
      UnitsCons(c, r);
      UnitsCons(c, r + t);
      Associate(CharUnits(c), Units(r), Units(t));
    }
  }

  lemma UnitsCons(c: char, s: string)
    ensures Units([c] + s) == CharUnits(c) + Units(s)
  {
    assert ([c] + s)[1..] == s;
  }

  lemma Associate(a: seq<int>, b: seq<int>, c: seq<int>)
    ensures a + (b + c) == a + b + c
  {
  }

  /** Comparing the encoded bytes is comparing the code units. */
  lemma {:induction false} ByteOrderIsUnitOrder(u: seq<int>, v: seq<int>)
    requires IsUnits(u) && IsUnits(v)
    ensures LexLeq(BigEndian(u), BigEndian(v)) <==> LexLeq(u, v)
  {
    if u != [] && v != [] {
      ByteOrderIsUnitOrder(u[1..], v[1..]);
      var a, b := BigEndian(u), BigEndian(v);
      assert a[1..][1..] == BigEndian(u[1..]) && b[1..][1..] == BigEndian(v[1..]);
      assert a[1..][0] == u[0] % 256 && b[1..][0] == v[0] % 256;
      assert u[0] == 256 * (u[0] / 256) + u[0] % 256;
      assert v[0] == 256 * (v[0] / 256) + v[0] % 256;
    }
  }

  lemma CharUnitsInjective(a: char, x: seq<int>, b: char, y: seq<int>)
    requires CharUnits(a) + x == CharUnits(b) + y
    ensures a == b && x == y
  {
    var u, v := CharUnits(a) + x, CharUnits(b) + y;
    assert u[0] == CharUnits(a)[0] && v[0] == CharUnits(b)[0];
    assert |CharUnits(a)| == |CharUnits(b)|;
    if |CharUnits(a)| == 2 {
      assert u[1] == CharUnits(a)[1] && v[1] == CharUnits(b)[1];
    }
    assert a as int == b as int;
    assert x == u[|CharUnits(a)|..] && y == v[|CharUnits(b)|..];
  }

  lemma {:induction false} UnitsInjective(a: string, b: string)
    requires Units(a) == Units(b)
    ensures a == b
  {
    if a == [] || b == [] {
      assert |Units(a)| == |Units(b)|;
    } else {
      CharUnitsInjective(a[0], Units(a[1..]), b[0], Units(b[1..]));
      UnitsInjective(a[1..], b[1..]);
      assert a == [a[0]] + a[1..] && b == [b[0]] + b[1..];
    }
  }

  /** Distinct names have distinct keys, and the keys are totally ordered: the
      member order is a strict total order on distinct names, and it is the
      order of UTF-16 code units. */
  lemma KeyOrderIsTotal(a: string, b: string)
    ensures KeyBytes(a) == KeyBytes(b) <==> a == b
    ensures LexLeq(KeyBytes(a), KeyBytes(b)) <==> LexLeq(Units(a), Units(b))
    ensures a != b ==> (LexLess(KeyBytes(a), KeyBytes(b)) <==> !LexLess(KeyBytes(b), KeyBytes(a)))
  {
    ByteOrderIsUnitOrder(Units(a), Units(b));
    ByteOrderIsUnitOrder(Units(b), Units(a));
    LexTotal(KeyBytes(a), KeyBytes(b));
    if KeyBytes(a) == KeyBytes(b) {
      LexReflexive(KeyBytes(a));
      LexAntisymmetric(Units(a), Units(b));
      UnitsInjective(a, b);
    } else if LexLeq(KeyBytes(a), KeyBytes(b)) && LexLeq(KeyBytes(b), KeyBytes(a)) {
      LexAntisymmetric(KeyBytes(a), KeyBytes(b));
    }
  }

  lemma KeyOrderIsTransitive(a: string, b: string, c: string)
    requires LexLess(KeyBytes(a), KeyBytes(b)) && LexLess(KeyBytes(b), KeyBytes(c))
    ensures LexLess(KeyBytes(a), KeyBytes(c))
  {
    LexLessTransitive(KeyBytes(a), KeyBytes(b), KeyBytes(c));
  }

  /** The order is by code units and not by code points: a name beyond the basic
      plane sorts before U+FFFF. */
  lemma CodeUnitOrderIsNotCodePointOrder()
    ensures LexLess(KeyBytes("\U{10000}"), KeyBytes("\U{FFFF}"))
  {
    assert Units("\U{10000}") == [0xD800, 0xDC00];
    assert Units("\U{FFFF}") == [0xFFFF];
    assert BigEndian([0xFFFF]) == [0xFF, 0xFF];
    assert BigEndian([0xDC00]) == [0xDC, 0x00];
    assert [0xD800, 0xDC00][1..] == [0xDC00];
    assert BigEndian([0xD800, 0xDC00]) == [0xD8, 0x00, 0xDC, 0x00];
  }
}

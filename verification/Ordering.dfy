/** Lexicographic order on integer sequences and the stable sort that the
    repository obtains from `sorted(..., key=...)`.  Every sort key of the model
    (UTF-16 bytes, code points, time stamps) is an integer sequence. */
module Ordering {

  predicate LexLeq(a: seq<int>, b: seq<int>) {
    a == [] || (b != [] && (a[0] < b[0] || (a[0] == b[0] && LexLeq(a[1..], b[1..]))))
  }

  predicate LexLess(a: seq<int>, b: seq<int>) {
    LexLeq(a, b) && a != b
  }

  lemma {:induction false} LexReflexive(a: seq<int>)
    ensures LexLeq(a, a)
  {
    if a != [] { LexReflexive(a[1..]); }
  }

  lemma {:induction false} LexAntisymmetric(a: seq<int>, b: seq<int>)
    requires LexLeq(a, b) && LexLeq(b, a)
    ensures a == b
  {
    if a != [] && b != [] {
      LexAntisymmetric(a[1..], b[1..]);
      assert a == [a[0]] + a[1..] && b == [b[0]] + b[1..];
    }
  }

  lemma {:induction false} LexTransitive(a: seq<int>, b: seq<int>, c: seq<int>)
    requires LexLeq(a, b) && LexLeq(b, c)
    ensures LexLeq(a, c)
  {
    if a != [] && a[0] == b[0] && b[0] == c[0] {
      LexTransitive(a[1..], b[1..], c[1..]);
    }
  }

  lemma {:induction false} LexTotal(a: seq<int>, b: seq<int>)
    ensures LexLeq(a, b) || LexLeq(b, a)
  {
    if a != [] && b != [] && a[0] == b[0] {
      LexTotal(a[1..], b[1..]);
    }
  }

  lemma LexLessTransitive(a: seq<int>, b: seq<int>, c: seq<int>)
    requires (LexLeq(a, b) && LexLess(b, c)) || (LexLess(a, b) && LexLeq(b, c))
    ensures LexLess(a, c)
  {
    LexTransitive(a, b, c);
    if a == c {
      LexAntisymmetric(a, b);
    }
  }

  /** The code points of a string, by which Python compares strings. */
  function Codes(s: string): (c: seq<int>)
    ensures |c| == |s| && forall i :: 0 <= i < |s| ==> c[i] == s[i] as int
  {
    if s == [] then [] else [s[0] as int] + Codes(s[1..])
  }

  lemma CodesInjective(s: string, t: string)
    requires Codes(s) == Codes(t)
    ensures s == t
  {
    forall i | 0 <= i < |s| ensures s[i] == t[i] { assert Codes(s)[i] == Codes(t)[i]; }
  }

  // ---- sorting by key ----

  function InsertBy<T>(x: T, s: seq<T>, key: T -> seq<int>): seq<T> {
    if s == [] || LexLeq(key(x), key(s[0])) then [x] + s
    else [s[0]] + InsertBy(x, s[1..], key)
  }

  /** `sorted(s, key=key)`: stable, ascending. */
  function SortBy<T>(s: seq<T>, key: T -> seq<int>): seq<T> {
    if s == [] then [] else InsertBy(s[0], SortBy(s[1..], key), key)
  }

  ghost predicate DistinctBy<T>(s: seq<T>, key: T -> seq<int>) {
    forall i, j :: 0 <= i < j < |s| ==> key(s[i]) != key(s[j])
  }

  lemma {:induction false} InsertByPermutes<T(!new)>(x: T, s: seq<T>, key: T -> seq<int>)
    ensures multiset(InsertBy(x, s, key)) == multiset{x} + multiset(s)
  {
    if s == [] || LexLeq(key(x), key(s[0])) {
    } else {
      InsertByPermutes(x, s[1..], key);
      assert s == [s[0]] + s[1..];
    }
  }

  lemma {:induction false} SortByPermutes<T(!new)>(s: seq<T>, key: T -> seq<int>)
    ensures multiset(SortBy(s, key)) == multiset(s)
  {
    if s != [] {
      SortByPermutes(s[1..], key);
      InsertByPermutes(s[0], SortBy(s[1..], key), key);
      assert s == [s[0]] + s[1..];
    }
  }

  lemma PermutationSize<T(!new)>(a: seq<T>, b: seq<T>)
    requires multiset(a) == multiset(b)
    ensures |a| == |b|
  {
    assert |multiset(a)| == |a| && |multiset(b)| == |b|;
  }

  lemma SortByMembers<T(!new)>(s: seq<T>, key: T -> seq<int>)
    ensures |SortBy(s, key)| == |s|
    ensures forall x :: x in SortBy(s, key) <==> x in s
  {
    SortByPermutes(s, key);
    PermutationSize(SortBy(s, key), s);
    forall x ensures x in SortBy(s, key) <==> x in s {
      assert x in SortBy(s, key) <==> x in multiset(SortBy(s, key));
      assert x in s <==> x in multiset(s);
    }
  }

  /** Sorted with distinct keys means strictly increasing keys. */
  ghost predicate StrictlySortedBy<T>(s: seq<T>, key: T -> seq<int>) {
    forall i, j :: 0 <= i < j < |s| ==> LexLess(key(s[i]), key(s[j]))
  }

  /** Two strictly sorted sequences with the same elements are the same sequence. */
  lemma {:induction false} StrictlySortedUnique<T(!new)>(a: seq<T>, b: seq<T>, key: T -> seq<int>)
    requires StrictlySortedBy(a, key) && StrictlySortedBy(b, key)
    requires forall x :: x in a <==> x in b
    ensures a == b
    decreases |a|
  {
    if a == [] {
      assert forall i :: 0 <= i < |b| ==> b[i] in b;
    } else {
      assert a[0] in b;
      var i :| 0 <= i < |b| && b[i] == a[0];
      assert b[0] in a;
      var j :| 0 <= j < |a| && a[j] == b[0];
      if i > 0 && j > 0 {
        assert LexLess(key(b[0]), key(b[i])) && LexLess(key(a[0]), key(a[j]));
        LexAntisymmetric(key(a[0]), key(b[0]));
      }
      assert a[0] == b[0];
      forall x ensures x in a[1..] <==> x in b[1..] {
        StrictTail(a, key, x);
        StrictTail(b, key, x);
      }
      StrictlySortedUnique(a[1..], b[1..], key);
      assert a == [a[0]] + a[1..] && b == [b[0]] + b[1..];
    }
  }

  lemma StrictTail<T(!new)>(a: seq<T>, key: T -> seq<int>, x: T)
    requires a != [] && StrictlySortedBy(a, key)
    ensures x in a[1..] <==> x in a && x != a[0]
  {
    if x in a[1..] {
      var i :| 0 <= i < |a[1..]| && a[1..][i] == x;
      assert a[i + 1] == x && LexLess(key(a[0]), key(a[i + 1]));
    }
    if x in a && x != a[0] {
      var i :| 0 <= i < |a| && a[i] == x;
      assert a[1..][i - 1] == x;
    }
  }

  lemma {:induction false} InsertByDistinct<T(!new)>(x: T, s: seq<T>, key: T -> seq<int>)
    requires StrictlySortedBy(s, key)
    requires forall y :: y in s ==> key(y) != key(x)
    ensures StrictlySortedBy(InsertBy(x, s, key), key)
  {
    if s == [] {
    } else if LexLeq(key(x), key(s[0])) {
      forall j | 0 <= j < |s| ensures LexLess(key(x), key(s[j])) {
        assert s[j] in s && s[0] in s;
        if j > 0 { LexLessTransitive(key(x), key(s[0]), key(s[j])); }
      }
    } else {
      LexTotal(key(x), key(s[0]));
      assert s[0] in s;
      var rest := InsertBy(x, s[1..], key);
      forall y | y in s[1..] ensures key(y) != key(x) { assert y in s; }
      InsertByDistinct(x, s[1..], key);
      InsertByPermutes(x, s[1..], key);
      forall j | 0 <= j < |rest| ensures LexLess(key(s[0]), key(rest[j])) {
        assert rest[j] in multiset(rest);
        assert rest[j] == x || rest[j] in s[1..];
        if rest[j] in s[1..] {
          var k :| 0 <= k < |s[1..]| && s[1..][k] == rest[j];
          assert s[k + 1] == rest[j];
        }
      }
    }
  }

  lemma {:induction false} SortByStrict<T(!new)>(s: seq<T>, key: T -> seq<int>)
    requires DistinctBy(s, key)
    ensures StrictlySortedBy(SortBy(s, key), key)
  {
    if s != [] {
      forall i, j | 0 <= i < j < |s[1..]| ensures key(s[1..][i]) != key(s[1..][j]) {
        assert key(s[i + 1]) != key(s[j + 1]);
      }
      SortByStrict(s[1..], key);
      var rest := SortBy(s[1..], key);
      SortByMembers(s[1..], key);
      assert forall y :: y in rest ==> y in s[1..];
      forall y | y in rest ensures key(y) != key(s[0]) {
        var i :| 0 <= i < |s[1..]| && s[1..][i] == y;
        assert s[i + 1] == y;
      }
      InsertByDistinct(s[0], SortBy(s[1..], key), key);
    }
  }

  /** The sorted form depends only on which elements are present, never on
      the order in which they arrive. */
  lemma SortByOrderFree<T(!new)>(s: seq<T>, t: seq<T>, key: T -> seq<int>)
    requires DistinctBy(s, key) && DistinctBy(t, key)
    requires forall x :: x in s <==> x in t
    ensures SortBy(s, key) == SortBy(t, key)
  {
    SortByStrict(s, key);
    SortByStrict(t, key);
    SortByMembers(s, key);
    SortByMembers(t, key);
    StrictlySortedUnique(SortBy(s, key), SortBy(t, key), key);
  }
}

/** The order of std::string's operator<, and the ascending order in which a
    std::set<string> hands out its elements. */
module Lexicographic {

  /** `a` sorts before `b`: character by character, and a proper prefix first. */
  predicate Less(a: string, b: string)
    decreases |a|
  {
    if a == [] then b != []
    else if b == [] then false
    else a[0] < b[0] || (a[0] == b[0] && Less(a[1..], b[1..]))
  }

  lemma {:induction false} LessAsymmetric(a: string, b: string)
    ensures !(Less(a, b) && Less(b, a))
    decreases |a|
  {
    if a != [] && b != [] && a[0] == b[0] {
      LessAsymmetric(a[1..], b[1..]);
    }
  }

  lemma {:induction false} LessTransitive(a: string, b: string, c: string)
    requires Less(a, b) && Less(b, c)
    ensures Less(a, c)
    decreases |a|
  {
    if a != [] && a[0] == b[0] && b[0] == c[0] {
      LessTransitive(a[1..], b[1..], c[1..]);
    }
  }

  lemma {:induction false} LessTotal(a: string, b: string)
    requires a != b
    ensures Less(a, b) || Less(b, a)
    decreases |a|
  {
    if a != [] && b != [] && a[0] == b[0] {
      assert a == [a[0]] + a[1..] && b == [b[0]] + b[1..];
      LessTotal(a[1..], b[1..]);
    }
  }

  /** Less is a strict total order on strings. */
  lemma LessIsStrictTotalOrder()
    ensures forall a :: !Less(a, a)
    ensures forall a, b, c :: Less(a, b) && Less(b, c) ==> Less(a, c)
    ensures forall a, b :: a != b ==> Less(a, b) || Less(b, a)
  {
    forall a ensures !Less(a, a) { LessAsymmetric(a, a); }
    forall a, b, c | Less(a, b) && Less(b, c) ensures Less(a, c) { LessTransitive(a, b, c); }
    forall a, b | a != b ensures Less(a, b) || Less(b, a) { LessTotal(a, b); }
  }

  predicate StrictlyAscending(s: seq<string>) {
    forall i, j :: 0 <= i < j < |s| ==> Less(s[i], s[j])
  }

  /** `m` is below every other element of `s`. */
  ghost predicate IsLeast(m: string, s: set<string>) {
    m in s && forall x :: x in s && x != m ==> Less(m, x)
  }

  lemma LeastIsUnique(m: string, n: string, s: set<string>)
    requires IsLeast(m, s) && IsLeast(n, s)
    ensures m == n
  {
    if m != n {
      LessAsymmetric(m, n);
    }
  }

  /** The least element of a non-empty set of strings. */
  ghost function Least(s: set<string>): (m: string)
    requires s != {}
    ensures IsLeast(m, s)
  {
    var x :| x in s;
    if s == {x} then x
    else
      var m := Least(s - {x});
      LeastAfterOneMore(s, x, m);
      if Less(x, m) then x else m
  }

  /** Adding `x` to a set whose least element is `m` makes the smaller of the two least. */
  lemma LeastAfterOneMore(s: set<string>, x: string, m: string)
    requires x in s && IsLeast(m, s - {x})
    ensures IsLeast(if Less(x, m) then x else m, s)
  {
    if Less(x, m) {
      forall y | y in s && y != x
        ensures Less(x, y)
      {
        if y != m { LessTransitive(x, m, y); }
      }
    } else {
      LessTotal(x, m);
    }
  }

  /** The elements of `s` in ascending order. */
  ghost function Ascending(s: set<string>): seq<string>
    decreases |s|
  {
    if s == {} then []
    else
      var m := Least(s);
      [m] + Ascending(s - {m})
  }

  /** Ascending(s) lists every element of `s` once, smallest first. */
  lemma {:induction false} AscendingIsSortedEnumeration(s: set<string>)
    ensures StrictlyAscending(Ascending(s))
    ensures forall x :: x in Ascending(s) <==> x in s
    ensures |Ascending(s)| == |s|
    decreases |s|
  {
    if s != {} {
      var m := Least(s);
      var tail := Ascending(s - {m});
      AscendingIsSortedEnumeration(s - {m});
      assert forall j :: 0 <= j < |tail| ==> tail[j] in s - {m};
      assert Ascending(s) == [m] + tail;
    }
  }

  lemma AscendingStartsWithLeast(s: set<string>)
    requires s != {}
    ensures Ascending(s) == [Least(s)] + Ascending(s - {Least(s)})
  {
  }

  /** Finds the least element of a non-empty set by one pass over it. */
  method LeastOf(s: set<string>) returns (m: string)
    requires s != {}
    ensures m == Least(s)
  {
    m :| m in s;
    var rest := s - {m};
    while rest != {}
      invariant rest <= s && m in s && m !in rest
      invariant forall x :: x in s && x !in rest && x != m ==> Less(m, x)
      decreases |rest|
    {
      var x :| x in rest;
      if Less(x, m) {
        forall y | y in s && y !in rest && y != x
          ensures Less(x, y)
        {
          if y != m { LessTransitive(x, m, y); }
        }
        m := x;
      } else {
        LessTotal(x, m);
      }
      rest := rest - {x};
    }
    LeastIsUnique(m, Least(s), s);
  }

  /** The elements of a std::set<string> in the order a range-for visits them. */
  method SortedElements(s: set<string>) returns (r: seq<string>)
    ensures r == Ascending(s)
  {
    r := [];
    var rest := s;
    while rest != {}
      invariant r + Ascending(rest) == Ascending(s)
      decreases |rest|
    {
      var m := LeastOf(rest);
      AscendingStartsWithLeast(rest);
      assert r + Ascending(rest) == (r + [m]) + Ascending(rest - {m});
      r := r + [m];
      rest := rest - {m};
    }
    assert r + [] == r;
  }
}

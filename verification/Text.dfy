/** The order on text that every stored timestamp and every sorted() call relies on:
    code-point order, which for UTF-8 is also byte order. */
module Text {

  /** a sorts strictly before b. */
  predicate Before(a: string, b: string) {
    |b| > 0 && (|a| == 0 || a[0] < b[0] || (a[0] == b[0] && Before(a[1..], b[1..])))
  }

  predicate AtMost(a: string, b: string) {
    a == b || Before(a, b)
  }

  lemma {:induction false} BeforeIrreflexive(a: string)
    ensures !Before(a, a)
  {
    if |a| > 0 { BeforeIrreflexive(a[1..]); }
  }

  lemma {:induction false} BeforeTransitive(a: string, b: string, c: string)
    requires Before(a, b) && Before(b, c)
    ensures Before(a, c)
  {
    if |a| > 0 && a[0] == b[0] == c[0] {
      BeforeTransitive(a[1..], b[1..], c[1..]);
    }
  }

  lemma {:induction false} BeforeTotal(a: string, b: string)
    ensures Before(a, b) || a == b || Before(b, a)
  {
    if |a| > 0 && |b| > 0 && a[0] == b[0] {
      BeforeTotal(a[1..], b[1..]);
      assert a == [a[0]] + a[1..] && b == [b[0]] + b[1..];
    }
  }

  lemma BeforeAsymmetric(a: string, b: string)
    requires Before(a, b)
    ensures a != b && !Before(b, a)
  {
    BeforeIrreflexive(a);
    if Before(b, a) { BeforeTransitive(a, b, a); }
  }

  lemma AtMostTransitive(a: string, b: string, c: string)
    requires AtMost(a, b) && AtMost(b, c)
    ensures AtMost(a, c)
    ensures Before(a, b) || Before(b, c) ==> Before(a, c)
  {
    if a != b && b != c { BeforeTransitive(a, b, c); }
  }

  /** Equal-length heads decide the order before the tails do. */
  lemma {:induction false} BeforeConcat(p: string, s: string, q: string, t: string)
    requires |p| == |q|
    ensures Before(p + s, q + t) <==> Before(p, q) || (p == q && Before(s, t))
  {
    if |p| == 0 {
      assert p + s == s && q + t == t;
    } else {
      assert (p + s)[1..] == p[1..] + s && (q + t)[1..] == q[1..] + t;
      assert (p + s)[0] == p[0] && (q + t)[0] == q[0];
      BeforeConcat(p[1..], s, q[1..], t);
      assert p == [p[0]] + p[1..] && q == [q[0]] + q[1..];
    }
  }

  function LowerChar(c: char): char {
    if 'A' <= c <= 'Z' then ((c as int) + 32) as char else c
  }

  /** The engine's LOWER(): ASCII only. */
  function Lower(s: string): string {
    seq(|s|, k requires 0 <= k < |s| => LowerChar(s[k]))
  }

  /** The 26 ASCII capitals become small letters, and nothing else changes. */
  lemma LowerIsAscii(c: char)
    ensures Lower("ABCDEFGHIJKLMNOPQRSTUVWXYZ") == "abcdefghijklmnopqrstuvwxyz"
    ensures c < 'A' || c > 'Z' ==> Lower([c]) == [c]
  {
  }

  ghost predicate Increasing(s: seq<string>) {
    forall i, j :: 0 <= i < j < |s| ==> Before(s[i], s[j])
  }

  predicate IsLeast(x: string, s: set<string>) {
    x in s && forall y :: y in s ==> AtMost(x, y)
  }

  lemma {:induction false} LeastExists(s: set<string>)
    requires s != {}
    ensures exists x :: IsLeast(x, s)
  {
    var x :| x in s;
    var rest := s - {x};
    if rest == {} {
      assert s == {x};
      assert IsLeast(x, s);
    } else {
      LeastExists(rest);
      var y :| IsLeast(y, rest);
      BeforeTotal(x, y);
      var least := if AtMost(x, y) then x else y;
      forall z | z in s ensures AtMost(least, z) {
        if z != x { AtMostTransitive(least, y, z); }
      }
      assert IsLeast(least, s);
    }
  }

  lemma LeastIsUnique(s: set<string>, x: string, y: string)
    requires IsLeast(x, s) && IsLeast(y, s)
    ensures x == y
  {
    if x != y { BeforeAsymmetric(x, y); }
  }

  function LeastOf(s: set<string>): (x: string)
    requires s != {}
    ensures IsLeast(x, s)
  {
    LeastExists(s);
    assert forall x, y :: IsLeast(x, s) && IsLeast(y, s) ==> x == y by {
      forall x, y | IsLeast(x, s) && IsLeast(y, s) ensures x == y { LeastIsUnique(s, x, y); }
    }
    assert exists x :: x in s && IsLeast(x, s);
    var x :| x in s && IsLeast(x, s);
    x
  }

  /** sorted(s) for a set of strings. */
  function Sorted(s: set<string>): (r: seq<string>)
    ensures Increasing(r)
    ensures forall x :: x in r <==> x in s
    ensures |r| == |s|
  {
    if s == {} then []
    else
      var x := LeastOf(s);
      var rest := Sorted(s - {x});
      assert forall i :: 0 <= i < |rest| ==> rest[i] in s - {x};
      [x] + rest
  }

  lemma IncreasingIsDistinct(s: seq<string>, i: nat, j: nat)
    requires Increasing(s) && i < j < |s|
    ensures s[i] != s[j]
  {
    BeforeIrreflexive(s[i]);
  }
}

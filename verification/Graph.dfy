/** Paths in a finite directed graph. */
module Graph {
  type Edges = map<string, set<string>>

  predicate Edge(g: Edges, a: string, b: string) {
    a in g && b in g[a]
  }

  ghost predicate IsPath(g: Edges, p: seq<string>) {
    |p| > 0 && forall i :: 0 <= i < |p| - 1 ==> Edge(g, p[i], p[i + 1])
  }

  ghost predicate Connects(g: Edges, p: seq<string>, a: string, b: string) {
    IsPath(g, p) && p[0] == a && p[|p| - 1] == b
  }

  /** b can be reached from a in any number of steps, also none. */
  ghost predicate Reaches(g: Edges, a: string, b: string) {
    exists p :: Connects(g, p, a, b)
  }

  /** ... in at most n steps. */
  ghost predicate ReachesWithin(g: Edges, a: string, b: string, n: nat) {
    exists p :: Connects(g, p, a, b) && |p| <= n + 1
  }

  lemma ReachesSelf(g: Edges, a: string, n: nat)
    ensures Reaches(g, a, a) && ReachesWithin(g, a, a, n)
  {
    assert Connects(g, [a], a, a);
  }

  lemma ReachesStep(g: Edges, a: string, b: string, c: string)
    requires Reaches(g, a, b) && Edge(g, b, c)
    ensures Reaches(g, a, c)
  {
    var p :| Connects(g, p, a, b);
    assert Connects(g, p + [c], a, c);
  }

  /** The last step of a walk within n + 1 steps. */
  lemma WithinStep(g: Edges, a: string, c: string, n: nat)
    ensures ReachesWithin(g, a, c, n + 1) <==>
      ReachesWithin(g, a, c, n) || exists b :: ReachesWithin(g, a, b, n) && Edge(g, b, c)
    ensures ReachesWithin(g, a, c, 0) <==> a == c
  {
    ReachesSelf(g, a, 0);
    if b :| ReachesWithin(g, a, b, n) && Edge(g, b, c) {
      var p :| Connects(g, p, a, b) && |p| <= n + 1;
      assert Connects(g, p + [c], a, c);
    }
    if ReachesWithin(g, a, c, n + 1) {
      var p :| Connects(g, p, a, c) && |p| <= n + 2;
      if |p| == n + 2 {
        var q := p[..|p| - 1];
        assert Edge(g, p[|p| - 2], p[|p| - 1]);
        assert Connects(g, q, a, q[|q| - 1]) && |q| <= n + 1;
      }
    }
  }

  /** A set that holds a and is closed under edges holds everything reachable from a. */
  lemma {:induction false} ClosedHoldsPath(g: Edges, s: set<string>, p: seq<string>)
    requires IsPath(g, p) && p[0] in s
    requires forall x, y :: x in s && Edge(g, x, y) ==> y in s
    ensures p[|p| - 1] in s
    decreases |p|
  {
    if |p| > 1 {
      var q := p[..|p| - 1];
      assert Edge(g, p[|p| - 2], p[|p| - 1]);
      ClosedHoldsPath(g, s, q);
    }
  }

  lemma ClosedHoldsReachable(g: Edges, s: set<string>, a: string, b: string)
    requires a in s && Reaches(g, a, b)
    requires forall x, y :: x in s && Edge(g, x, y) ==> y in s
    ensures b in s
  {
    var p :| Connects(g, p, a, b);
    ClosedHoldsPath(g, s, p);
  }
}

/** Every descendant of an issue, level by level: connectors/jira/api.py::subtree_keys. */
module JiraSubtree {
  import opened Text
  import opened Graph

  /** One JQL search answers with the children of the frontier: in any order, with repetitions, and
      possibly with items that carry no key. */
  ghost predicate AnswersFor(g: Edges, search: seq<string> -> seq<string>) {
    forall frontier, k :: k != "" ==> (k in search(frontier) <==> exists p :: p in frontier && Edge(g, p, k))
  }

  ghost predicate Explored(g: Edges, root: string, visited: set<string>, frontier: seq<string>, depth: nat) {
    && (forall k :: k in visited <==> ReachesWithin(g, root, k, depth))
    && (forall k :: k in frontier ==> k in visited)
    && (forall x, y :: x in visited && x !in frontier && Edge(g, x, y) ==> y in visited)
  }

  lemma NextLevel(g: Edges, root: string, visited: set<string>, frontier: seq<string>, depth: nat,
                  found: set<string>, next: seq<string>)
    requires Explored(g, root, visited, frontier, depth)
    requires forall k :: k in found <==> exists p :: p in frontier && Edge(g, p, k)
    requires forall k :: k in next <==> k in found && k !in visited
    ensures Explored(g, root, visited + found, next, depth + 1)
  {
    forall k ensures k in visited + found <==> ReachesWithin(g, root, k, depth + 1) {
      WithinStep(g, root, k, depth);
    }
  }

  /** Once a level adds nothing, nothing deeper exists. */
  lemma Exhausted(g: Edges, root: string, visited: set<string>, depth: nat, maxDepth: nat, k: string)
    requires Explored(g, root, visited, [], depth) && depth <= maxDepth
    ensures k in visited <==> ReachesWithin(g, root, k, maxDepth)
    ensures k in visited <==> Reaches(g, root, k)
  {
    ReachesSelf(g, root, depth);
    if Reaches(g, root, k) { ClosedHoldsReachable(g, visited, root, k); }
  }

  /** One pass over a search result: the keys not seen before become the next frontier. */
  method TakeNew(raw: seq<string>, before: set<string>) returns (visited: set<string>, next: seq<string>)
    ensures visited == before + set k | k in raw && k != ""
    ensures forall k :: k in next <==> k in raw && k != "" && k !in before
  {
    visited, next := before, [];
    for i := 0 to |raw|
      invariant visited == before + set k | k in raw[..i] && k != ""
      invariant forall k :: k in next <==> k in raw[..i] && k != "" && k !in before
    {
      var key := raw[i];
      if key != "" && key !in visited {
        visited := visited + {key};
        next := next + [key];
      }
    }
    assert raw[..|raw|] == raw;
  }

  /** Exactly the keys at most maxDepth child steps below the root, the root included, each once. */
  method SubtreeKeys(root: string, maxDepth: int, search: seq<string> -> seq<string>, ghost g: Edges)
    returns (keys: seq<string>)
    requires AnswersFor(g, search) && forall p :: !Edge(g, p, "")
    ensures Increasing(keys)
    ensures forall k :: k in keys <==> ReachesWithin(g, root, k, if maxDepth > 0 then maxDepth else 0)
  {
    var visited := {root};
    var frontier := [root];
    var depth := 0;
    ghost var bound := if maxDepth > 0 then maxDepth else 0;
    Start(g, root);
    while depth < maxDepth && frontier != []
      invariant 0 <= depth <= bound
      invariant Explored(g, root, visited, frontier, depth)
      decreases bound - depth
    {
      var raw := search(frontier);
      ghost var found := set k | k in raw && k != "";
      ghost var before, level := visited, frontier;
      visited, frontier := TakeNew(raw, visited);
      Answered(g, search, level, found);
      NextLevel(g, root, before, level, depth, found, frontier);
      depth := depth + 1;
    }
    forall k ensures k in visited <==> ReachesWithin(g, root, k, bound) {
      if frontier == [] { Exhausted(g, root, visited, depth, bound, k); }
    }
    keys := Sorted(visited);
  }

  lemma Start(g: Edges, root: string)
    ensures Explored(g, root, {root}, [root], 0)
  {
    forall k ensures k in {root} <==> ReachesWithin(g, root, k, 0) { WithinStep(g, root, k, 0); }
  }

  lemma Answered(g: Edges, search: seq<string> -> seq<string>, frontier: seq<string>, found: set<string>)
    requires AnswersFor(g, search) && forall p :: !Edge(g, p, "")
    requires found == set k | k in search(frontier) && k != ""
    ensures forall k :: k in found <==> exists p :: p in frontier && Edge(g, p, k)
  {
  }
}

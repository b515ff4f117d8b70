/** Copy order of the tables in a migration: scripts/migrate_sqlite_to_postgres.py::fk_order. */
module FkOrder {
  import opened Text
  import opened Graph
  import opened Sequences

  /** Foreign keys among the copied tables, self references dropped. */
  function Dependencies(tables: set<string>, references: map<string, set<string>>): (deps: Edges)
    ensures deps.Keys == tables
    ensures forall t, p :: Edge(deps, t, p) <==>
      t in tables && p in tables && p != t && t in references && p in references[t]
  {
    map t | t in tables :: if t in references then set p | p in references[t] && p in tables && p != t else {}
  }

  /** A parent is placed before its child unless the parent itself depends on the child. */
  ghost predicate ParentsFirstOrCyclic(deps: Edges, ordered: seq<string>) {
    forall i, p :: 0 <= i < |ordered| && Edge(deps, ordered[i], p) ==> p in ordered[..i] || Reaches(deps, p, ordered[i])
  }

  ghost predicate ParentsFirst(deps: Edges, ordered: seq<string>) {
    forall i, p :: 0 <= i < |ordered| && Edge(deps, ordered[i], p) ==> p in ordered[..i]
  }

  ghost predicate Acyclic(deps: Edges) {
    forall a, b :: Edge(deps, a, b) ==> !Reaches(deps, b, a)
  }

  class Visitor {
    const deps: Edges
    var ordered: seq<string>
    var visiting: set<string>

    ghost predicate Valid()
      reads this
    {
      && (forall t, p :: Edge(deps, t, p) ==> p in deps)
      && visiting <= deps.Keys
      && (forall t :: t in ordered ==> t in deps && t !in visiting)
      && Distinct(ordered)
      && ParentsFirstOrCyclic(deps, ordered)
    }

    constructor (deps: Edges)
      requires forall t, p :: Edge(deps, t, p) ==> p in deps
      ensures Valid() && this.deps == deps && ordered == [] && visiting == {}
    {
      this.deps := deps;
      ordered := [];
      visiting := {};
    }

    method Visit(table: string)
      requires Valid() && table in deps
      requires forall v :: v in visiting ==> Reaches(deps, v, table)
      modifies this
      ensures Valid() && visiting == old(visiting)
      ensures old(ordered) <= ordered
      ensures table in ordered || table in visiting
      decreases deps.Keys - visiting
    {
      if table in ordered || table in visiting {
        return;
      }
      ghost var onStack := visiting;
      visiting := visiting + {table};
      var parents := Sorted(deps[table]);
      var k := 0;
      ReachesSelf(deps, table, 0);
      while k < |parents|
        invariant 0 <= k <= |parents|
        invariant Valid() && visiting == onStack + {table} && table !in onStack
        invariant old(ordered) <= ordered
        invariant forall j :: 0 <= j < k ==> parents[j] in ordered || parents[j] in visiting
      {
        var parent := parents[k];
        assert Edge(deps, table, parent);
        forall v | v in visiting ensures Reaches(deps, v, parent) {
          ReachesStep(deps, v, table, parent);
        }
        Visit(parent);
        k := k + 1;
      }
      visiting := visiting - {table};
      assert visiting == onStack;
      forall p | Edge(deps, table, p) ensures p in ordered || Reaches(deps, p, table) {
        var j :| 0 <= j < |parents| && parents[j] == p;
      }
      Append(deps, ordered, table);
      ordered := ordered + [table];
    }

    method Order()
      requires Valid() && ordered == [] && visiting == {}
      modifies this
      ensures Valid() && visiting == {}
      ensures forall t :: t in ordered <==> t in deps
    {
      var tables := Sorted(deps.Keys);
      var k := 0;
      while k < |tables|
        invariant 0 <= k <= |tables|
        invariant Valid() && visiting == {}
        invariant forall j :: 0 <= j < k ==> tables[j] in ordered
      {
        Visit(tables[k]);
        k := k + 1;
      }
      forall t | t in deps ensures t in ordered {
        var j :| 0 <= j < |tables| && tables[j] == t;
      }
    }
  }

  lemma Append(deps: Edges, ordered: seq<string>, table: string)
    requires ParentsFirstOrCyclic(deps, ordered)
    requires forall p :: Edge(deps, table, p) ==> p in ordered || Reaches(deps, p, table)
    ensures ParentsFirstOrCyclic(deps, ordered + [table])
  {
    var longer := ordered + [table];
    forall i, p | 0 <= i < |longer| && Edge(deps, longer[i], p)
      ensures p in longer[..i] || Reaches(deps, p, longer[i])
    {
      assert longer[..i] == ordered[..i];
      if i == |ordered| { assert longer[..i] == ordered; }
    }
  }

  /** Terminates on every dependency graph, cycles and self references included, and returns each
      table once; a parent comes later than its child only inside a cycle. */
  method CopyOrder(tables: set<string>, references: map<string, set<string>>) returns (ordered: seq<string>)
    ensures Distinct(ordered) && forall t :: t in ordered <==> t in tables
    ensures ParentsFirstOrCyclic(Dependencies(tables, references), ordered)
  {
    var visitor := new Visitor(Dependencies(tables, references));
    visitor.Order();
    ordered := visitor.ordered;
  }

  lemma {:induction false} PathGoesBack(deps: Edges, ordered: seq<string>, p: seq<string>, j: nat) returns (i: nat)
    requires ParentsFirst(deps, ordered) && Distinct(ordered) && IsPath(deps, p)
    requires j < |ordered| && ordered[j] == p[0]
    ensures i <= j && ordered[i] == p[|p| - 1]
    decreases |p|
  {
    if |p| == 1 {
      i := j;
    } else {
      assert Edge(deps, p[0], p[1]);
      assert p[1] in ordered[..j];
      var k: nat :| k < j && ordered[k] == p[1];
      assert IsPath(deps, p[1..]) by {
        forall n | 0 <= n < |p[1..]| - 1 ensures Edge(deps, p[1..][n], p[1..][n + 1]) {
          assert Edge(deps, p[n + 1], p[n + 2]);
        }
      }
      i := PathGoesBack(deps, ordered, p[1..], k);
    }
  }

  /** The order found respects every foreign key exactly when any order can: when there is no cycle. */
  lemma RespectsKeysIffAcyclic(deps: Edges, ordered: seq<string>)
    requires Distinct(ordered) && (forall t :: t in deps ==> t in ordered)
    requires ParentsFirstOrCyclic(deps, ordered)
    ensures ParentsFirst(deps, ordered) <==> Acyclic(deps)
  {
    if ParentsFirst(deps, ordered) {
      forall a, b | Edge(deps, a, b) ensures !Reaches(deps, b, a) {
        if Reaches(deps, b, a) {
          var p :| Connects(deps, p, b, a);
          var j :| 0 <= j < |ordered| && ordered[j] == a;
          assert b in ordered[..j];
          var k :| 0 <= k < j && ordered[k] == b;
          var i := PathGoesBack(deps, ordered, p, k);
        }
      }
    }
  }
}

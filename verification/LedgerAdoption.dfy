/** Revertible ontology adoption of connectors/core/ledger.py: adoption_candidates, adopt_shapes,
    unadopt, with the seeding, dismissals and extraction drops they depend on. */
module LedgerAdoption {
  import opened Options
  import opened Text

  datatype Shape = Shape(subjectKind: string, relation: string, objectKind: string)

  /** An allow-list row: the hand-set columns (abbreviated to one), and the batch that adopted it. */
  datatype Axiom = Axiom(columns: string, adoptedBatch: Option<string>)

  /** One extraction refused because its relation is not allowed; SQL NULLs are None. */
  datatype Drop = Drop(recordKey: string, chunkId: string, shape: Shape, subjectName: Option<string>,
                       objectName: Option<string>)

  datatype Adoption = Adoption(shapes: seq<Shape>, undone: bool)

  /** `misses` says of each recorded relation-type miss whether a human dismissed it. */
  datatype Ontology = Ontology(
    axioms: map<Shape, Axiom>, adoptions: map<string, Adoption>, misses: map<string, bool>, drops: seq<Drop>)

  predicate Dismissed(o: Ontology, key: string) { key in o.misses && o.misses[key] }

  const ADOPTED_COLUMNS := "extractable=1, temporal=state"

  // ---------------------------------------------------------------- candidates

  /** The key under which a human dismisses a shape. */
  function MissKey(s: Shape): string {
    s.subjectKind + " -" + s.relation + "-> " + s.objectKind
  }

  /** A drop that can count as evidence: not a tautology, and named at both ends. */
  predicate Counts(d: Drop) {
    && d.shape.relation != ""
    && d.subjectName.Some? && d.objectName.Some? && Lower(d.subjectName.value) != Lower(d.objectName.value)
  }

  function Facts(drops: seq<Drop>, s: Shape): nat {
    if drops == [] then 0
    else Facts(drops[..|drops| - 1], s) + var d := drops[|drops| - 1]; if d.shape == s && Counts(d) then 1 else 0
  }

  function Documents(drops: seq<Drop>, s: Shape): set<string> {
    set i | 0 <= i < |drops| && drops[i].shape == s && Counts(drops[i]) :: drops[i].recordKey
  }

  predicate IsCandidate(o: Ontology, s: Shape, minDocs: int, minFacts: int) {
    && (exists i :: 0 <= i < |o.drops| && o.drops[i].shape == s && Counts(o.drops[i]))
    && !Dismissed(o, MissKey(s))
    && s !in o.axioms
    && |Documents(o.drops, s)| >= minDocs && Facts(o.drops, s) >= minFacts
  }

  /** A candidate with the evidence that carried it. */
  datatype Candidate = Candidate(shape: Shape, facts: nat, docs: nat)

  function CandidateOf(o: Ontology, s: Shape): Candidate {
    Candidate(s, Facts(o.drops, s), |Documents(o.drops, s)|)
  }

  /** ORDER BY docs DESC, facts DESC allows a before b. */
  predicate RanksNoLower(a: Candidate, b: Candidate) {
    a.docs > b.docs || (a.docs == b.docs && a.facts >= b.facts)
  }

  ghost predicate Ranked(rows: seq<Candidate>) {
    forall i, j :: 0 <= i < j < |rows| ==> RanksNoLower(rows[i], rows[j])
  }

  /** Puts a candidate where the ranking allows it. */
  method InsertRanked(rows: seq<Candidate>, row: Candidate) returns (result: seq<Candidate>)
    requires Ranked(rows)
    ensures Ranked(result) && |result| == |rows| + 1
    ensures forall c :: c in result <==> c in rows || c == row
  {
    var k := 0;
    while k < |rows| && RanksNoLower(rows[k], row)
      invariant 0 <= k <= |rows|
      invariant forall i :: 0 <= i < k ==> RanksNoLower(rows[i], row)
    {
      k := k + 1;
    }
    result := rows[..k] + [row] + rows[k..];
    forall i, j | 0 <= i < j < |result| ensures RanksNoLower(result[i], result[j]) {
      assert result[i] == if i < k then rows[i] else if i == k then row else rows[i - 1];
      assert result[j] == if j < k then rows[j] else if j == k then row else rows[j - 1];
      assert k < |rows| ==> RanksNoLower(row, rows[k]);
    }
    assert rows == rows[..k] + rows[k..];
  }

  /** The shapes of all refusals that clear the bar. */
  method CollectCandidates(o: Ontology, minDocs: int, minFacts: int) returns (shapes: set<Shape>)
    ensures forall s :: s in shapes <==> IsCandidate(o, s, minDocs, minFacts)
  {
    shapes := {};
    for i := 0 to |o.drops|
      invariant forall s :: s in shapes <==>
        IsCandidate(o, s, minDocs, minFacts) && exists k :: 0 <= k < i && o.drops[k].shape == s && Counts(o.drops[k])
    {
      var s := o.drops[i].shape;
      if Counts(o.drops[i]) && !Dismissed(o, MissKey(s)) && s !in o.axioms
         && |Documents(o.drops, s)| >= minDocs && Facts(o.drops, s) >= minFacts {
        shapes := shapes + {s};
      }
    }
  }

  /** One row per shape, ranked. */
  method Rank(o: Ontology, shapes: set<Shape>) returns (rows: seq<Candidate>)
    ensures Ranked(rows) && |rows| == |shapes|
    ensures forall c :: c in rows <==> c.shape in shapes && c == CandidateOf(o, c.shape)
  {
    rows := [];
    var todo := shapes;
    while todo != {}
      invariant todo <= shapes && Ranked(rows) && |rows| + |todo| == |shapes|
      invariant forall c :: c in rows <==> c.shape in shapes - todo && c == CandidateOf(o, c.shape)
      decreases todo
    {
      var s :| s in todo;
      rows := InsertRanked(rows, Candidate(s, Facts(o.drops, s), |Documents(o.drops, s)|));
      todo := todo - {s};
    }
  }

  lemma {:induction false} ManyFactsOneDocument(drops: seq<Drop>, s: Shape, r: string)
    requires forall i :: 0 <= i < |drops| && drops[i].shape == s && Counts(drops[i]) ==> drops[i].recordKey == r
    ensures |Documents(drops, s)| <= 1
  {
    assert Documents(drops, s) <= {r};
    assert Documents(drops, s) == {} || Documents(drops, s) == {r};
  }

  /** A statement repeated within a single document, however often and however worded, never becomes a
      candidate under the default bar of two documents. */
  lemma OneDocumentIsNotEnough(o: Ontology, s: Shape, r: string, minDocs: int, minFacts: int)
    requires minDocs >= 2
    requires forall i :: 0 <= i < |o.drops| && o.drops[i].shape == s && Counts(o.drops[i]) ==> o.drops[i].recordKey == r
    ensures !IsCandidate(o, s, minDocs, minFacts)
  {
    ManyFactsOneDocument(o.drops, s, r);
  }

  /** The refusals of a shape that are evidence: by position in the table. */
  ghost function Witnesses(drops: seq<Drop>, s: Shape): set<int> {
    set i | 0 <= i < |drops| && drops[i].shape == s && drops[i].shape.relation != "" &&
      drops[i].subjectName.Some? && drops[i].objectName.Some? &&
      Lower(drops[i].subjectName.value) != Lower(drops[i].objectName.value)
  }

  predicate IsWitness(d: Drop, s: Shape) { d.shape == s && Counts(d) }

  lemma WitnessesSnoc(drops: seq<Drop>, s: Shape)
    requires drops != []
    ensures var last := |drops| - 1;
      Witnesses(drops, s) == Witnesses(drops[..last], s) + if IsWitness(drops[last], s) then {last} else {}
  {
  }

  lemma {:induction false} FactsAreWitnesses(drops: seq<Drop>, s: Shape)
    ensures Facts(drops, s) == |Witnesses(drops, s)|
  {
    if drops != [] {
      FactsAreWitnesses(drops[..|drops| - 1], s);
      WitnessesSnoc(drops, s);
    }
  }

  lemma DocumentsOfWitnesses(drops: seq<Drop>, s: Shape)
    ensures Documents(drops, s) == set i | i in Witnesses(drops, s) :: drops[i].recordKey
    ensures (exists i :: 0 <= i < |drops| && drops[i].shape == s && Counts(drops[i])) <==> Witnesses(drops, s) != {}
  {
    if i :| 0 <= i < |drops| && drops[i].shape == s && Counts(drops[i]) {
      assert i in Witnesses(drops, s);
    } else {
      assert forall i :: i !in Witnesses(drops, s);
    }
  }

  /** A shape is a candidate exactly when it was refused for want of an axiom alone - not for being a tautology,
      whatever the case its ends are written in, nor for lack of a name - often enough, in enough documents, and is
      neither in the table nor dismissed under its arrow notation. */
  lemma CandidateIff(o: Ontology, s: Shape, minDocs: int, minFacts: int)
    ensures IsCandidate(o, s, minDocs, minFacts) <==>
      && Witnesses(o.drops, s) != {}
      && |Witnesses(o.drops, s)| >= minFacts
      && |set i | i in Witnesses(o.drops, s) :: o.drops[i].recordKey| >= minDocs
      && s !in o.axioms
      && var key := s.subjectKind + " -" + s.relation + "-> " + s.objectKind;
         key in o.misses ==> !o.misses[key]
  {
    FactsAreWitnesses(o.drops, s);
    DocumentsOfWitnesses(o.drops, s);
  }

  /** A shape refused only as a tautology or without both names is never a candidate, however low the bar. */
  lemma TautologyIsNoCandidate(o: Ontology, s: Shape, minDocs: int, minFacts: int)
    requires forall i :: 0 <= i < |o.drops| && o.drops[i].shape == s ==>
      || s.relation == "" || o.drops[i].subjectName.None? || o.drops[i].objectName.None?
      || Lower(o.drops[i].subjectName.value) == Lower(o.drops[i].objectName.value)
    ensures !IsCandidate(o, s, minDocs, minFacts)
  {
    CandidateIff(o, s, minDocs, minFacts);
    assert forall i :: i !in Witnesses(o.drops, s);
  }

  /** Two refusals of a shape in two documents are enough for a bar of two, whatever their case or chunk, unless a
      human dismissed the shape or it is in the table. */
  lemma TwoDocumentsAreEnough(o: Ontology, s: Shape, i: nat, j: nat)
    requires i < |o.drops| && j < |o.drops| && o.drops[i].shape == o.drops[j].shape == s && s.relation != ""
    requires o.drops[i].recordKey != o.drops[j].recordKey
    requires o.drops[i].subjectName.Some? && o.drops[i].objectName.Some?
    requires o.drops[j].subjectName.Some? && o.drops[j].objectName.Some?
    requires Lower(o.drops[i].subjectName.value) != Lower(o.drops[i].objectName.value)
    requires Lower(o.drops[j].subjectName.value) != Lower(o.drops[j].objectName.value)
    requires s !in o.axioms
    requires var key := s.subjectKind + " -" + s.relation + "-> " + s.objectKind; key in o.misses ==> !o.misses[key]
    ensures IsCandidate(o, s, 2, 2)
  {
    var both, docs := {i, j}, {o.drops[i].recordKey, o.drops[j].recordKey};
    FactsAreWitnesses(o.drops, s);
    assert i != j && i in Witnesses(o.drops, s) && j in Witnesses(o.drops, s);
    SubsetSize(both, Witnesses(o.drops, s));
    assert Counts(o.drops[i]) && Counts(o.drops[j]);
    SubsetSize(docs, Documents(o.drops, s));
  }

  lemma {:induction false} SubsetSize<T>(a: set<T>, b: set<T>)
    requires a <= b
    ensures |a| <= |b|
  {
    assert b == a + (b - a);
  }

  // ---------------------------------------------------------------- operations

  /** INSERT ... ON CONFLICT DO NOTHING, row by row. */
  function Inserted(axioms: map<Shape, Axiom>, shapes: seq<Shape>, row: Axiom): map<Shape, Axiom> {
    axioms + map s | s in shapes && s !in axioms :: row
  }

  function Adopted(o: Ontology, shapes: seq<Shape>, batch: string): Ontology {
    o.(axioms := Inserted(o.axioms, shapes, Axiom(ADOPTED_COLUMNS, Some(batch))),
       adoptions := o.adoptions[batch := Adoption(shapes, false)])
  }

  predicate CanUndo(o: Ontology, batch: string) { batch in o.adoptions && !o.adoptions[batch].undone }

  function Without(axioms: map<Shape, Axiom>, batch: string): map<Shape, Axiom> {
    map s | s in axioms && axioms[s].adoptedBatch != Some(batch) :: axioms[s]
  }

  function Unadopted(o: Ontology, batch: string): Ontology {
    if CanUndo(o, batch)
    then o.(axioms := Without(o.axioms, batch), adoptions := o.adoptions[batch := o.adoptions[batch].(undone := true)])
    else o
  }

  function UndoneShapes(o: Ontology, batch: string): seq<Shape> {
    if CanUndo(o, batch) then o.adoptions[batch].shapes else []
  }

  /** INSERT ... ON CONFLICT DO UPDATE of the counters: a dismissal survives. */
  function WithMiss(misses: map<string, bool>, key: string): map<string, bool> {
    if key in misses then misses else misses[key := false]
  }

  /** UPDATE: a miss nobody recorded cannot be dismissed. */
  function WithDismissal(misses: map<string, bool>, key: string): map<string, bool> {
    if key in misses then misses[key := true] else misses
  }

  // ---------------------------------------------------------------- single steps

  /** Undoing an adoption restores the axiom table exactly - for any shapes, even ones already present,
      and whatever the batch's rows were mixed with. The batch id is fresh. */
  lemma UndoRestores(o: Ontology, shapes: seq<Shape>, batch: string)
    requires batch !in o.adoptions
    requires forall s :: s in o.axioms ==> o.axioms[s].adoptedBatch != Some(batch)
    ensures Unadopted(Adopted(o, shapes, batch), batch).axioms == o.axioms
    ensures UndoneShapes(Adopted(o, shapes, batch), batch) == shapes
  {
  }

  /** Undos commute, and a second undo does nothing and reports nothing. */
  lemma UndosCommute(o: Ontology, a: string, b: string)
    ensures Unadopted(Unadopted(o, a), b) == Unadopted(Unadopted(o, b), a)
    ensures Unadopted(Unadopted(o, a), a) == Unadopted(o, a)
    ensures UndoneShapes(Unadopted(o, a), a) == []
  {
    if a != b {
      var x, y := Unadopted(Unadopted(o, a), b), Unadopted(Unadopted(o, b), a);
      assert Without(Without(o.axioms, a), b) == Without(Without(o.axioms, b), a);
      assert x.adoptions == y.adoptions;
    }
  }

  // ---------------------------------------------------------------- whole runs

  /** Adopt is adoption_candidates and adopt_shapes taken together, with a fresh batch id. */
  datatype Event =
    | Seed(shapes: seq<Shape>, columns: string)
    | Adopt(shapes: seq<Shape>, batch: string, minDocs: int, minFacts: int)
    | Undo(batch: string)
    | RecordMiss(key: string)
    | Dismiss(key: string)
    | RecordDrops(drops: seq<Drop>)

  predicate Enabled(o: Ontology, e: Event) {
    match e
    case Adopt(shapes, batch, minDocs, minFacts) =>
      batch !in o.adoptions && forall s :: s in shapes ==> IsCandidate(o, s, minDocs, minFacts)
    case _ => true
  }

  function Apply(o: Ontology, e: Event): Ontology {
    match e
    case Seed(shapes, columns) => o.(axioms := Inserted(o.axioms, shapes, Axiom(columns, None)))
    case Adopt(shapes, batch, _, _) => if shapes == [] then o else Adopted(o, shapes, batch)
    case Undo(batch) => Unadopted(o, batch)
    case RecordMiss(key) => o.(misses := WithMiss(o.misses, key))
    case Dismiss(key) => o.(misses := WithDismissal(o.misses, key))
    case RecordDrops(drops) => o.(drops := drops)
  }

  ghost predicate ValidRun(o: Ontology, events: seq<Event>)
    decreases |events|
  {
    events == [] || (Enabled(o, events[0]) && ValidRun(Apply(o, events[0]), events[1..]))
  }

  function Run(o: Ontology, events: seq<Event>): Ontology
    decreases |events|
  {
    if events == [] then o else Run(Apply(o, events[0]), events[1..])
  }

  /** Adopted rows belong to the one batch, not undone, that lists them; two such batches share no shape. */
  ghost predicate Exact(o: Ontology) {
    && (forall s :: s in o.axioms && o.axioms[s].adoptedBatch.Some? ==>
          var b := o.axioms[s].adoptedBatch.value; CanUndo(o, b) && s in o.adoptions[b].shapes)
    && (forall b, s :: CanUndo(o, b) && s in o.adoptions[b].shapes ==>
          s in o.axioms && o.axioms[s].adoptedBatch == Some(b))
  }

  function Standing(o: Ontology): (shapes: set<Shape>)
    ensures forall s :: s in shapes <==> exists b :: CanUndo(o, b) && s in o.adoptions[b].shapes
  {
    set b, s | b in o.adoptions && CanUndo(o, b) && s in o.adoptions[b].shapes :: s
  }

  /** The rows no batch owns: what code and humans put there. */
  function Base(o: Ontology): map<Shape, Axiom> {
    map s | s in o.axioms && o.axioms[s].adoptedBatch == None :: o.axioms[s]
  }

  lemma AdoptKeepsBase(o: Ontology, shapes: seq<Shape>, batch: string)
    requires forall s :: s in shapes ==> s !in o.axioms
    ensures Base(Adopted(o, shapes, batch)) == Base(o)
  {
  }

  lemma AdoptKeepsExact(o: Ontology, shapes: seq<Shape>, batch: string)
    requires Exact(o) && batch !in o.adoptions && forall s :: s in shapes ==> s !in o.axioms
    ensures Exact(Adopted(o, shapes, batch))
  {
    var o' := Adopted(o, shapes, batch);
    forall b, s | CanUndo(o', b) && s in o'.adoptions[b].shapes
      ensures s in o'.axioms && o'.axioms[s].adoptedBatch == Some(b)
    {
      if b != batch { assert CanUndo(o, b); }
    }
    forall s | s in o'.axioms && o'.axioms[s].adoptedBatch.Some?
      ensures var b := o'.axioms[s].adoptedBatch.value; CanUndo(o', b) && s in o'.adoptions[b].shapes
    {
      if s in o.axioms { assert o'.axioms[s] == o.axioms[s]; }
    }
  }

  lemma UndoKeepsExact(o: Ontology, batch: string)
    requires Exact(o)
    ensures Exact(Unadopted(o, batch)) && Base(Unadopted(o, batch)) == Base(o)
  {
    var o' := Unadopted(o, batch);
    forall b, s | CanUndo(o', b) && s in o'.adoptions[b].shapes
      ensures s in o'.axioms && o'.axioms[s].adoptedBatch == Some(b)
    {
      assert CanUndo(o, b);
    }
  }

  /** The shapes a seeding adds: those the table does not have in any way. */
  function PlantedBy(o: Ontology, e: Event): set<Shape> {
    if e.Seed? then set s | s in e.shapes && s !in o.axioms else {}
  }

  lemma SeedKeepsExact(o: Ontology, shapes: seq<Shape>, columns: string)
    requires Exact(o)
    ensures Exact(Apply(o, Seed(shapes, columns)))
  {
    var o' := Apply(o, Seed(shapes, columns));
    forall b, s | CanUndo(o', b) && s in o'.adoptions[b].shapes
      ensures s in o'.axioms && o'.axioms[s].adoptedBatch == Some(b)
    {
      assert CanUndo(o, b);
    }
  }

  lemma StepKeepsExact(o: Ontology, e: Event)
    requires Exact(o) && Enabled(o, e)
    ensures Exact(Apply(o, e))
  {
    match e
    case Seed(shapes, columns) => SeedKeepsExact(o, shapes, columns);
    case Adopt(shapes, batch, _, _) => if shapes != [] { AdoptKeepsExact(o, shapes, batch); }
    case Undo(batch) => UndoKeepsExact(o, batch);
    case RecordMiss(_) =>
    case Dismiss(_) =>
    case RecordDrops(_) =>
  }

  /** Only a seeding adds rows that no batch owns, and nothing removes or changes one. */
  lemma StepKeepsBase(o: Ontology, e: Event)
    requires Enabled(o, e)
    ensures Base(Apply(o, e)).Keys == Base(o).Keys + PlantedBy(o, e)
    ensures forall s :: s in Base(o) ==> Base(Apply(o, e))[s] == Base(o)[s]
  {
    match e
    case Seed(shapes, columns) =>
    case Adopt(shapes, batch, _, _) => if shapes != [] { AdoptKeepsBase(o, shapes, batch); }
    case Undo(batch) => assert Base(Unadopted(o, batch)) == Base(o);
    case RecordMiss(_) =>
    case Dismiss(_) =>
    case RecordDrops(_) =>
  }

  /** The shapes the seedings of a run added, each absent when a seeding named it. */
  function Planted(o: Ontology, events: seq<Event>): set<Shape>
    decreases |events|
  {
    if events == [] then {} else PlantedBy(o, events[0]) + Planted(Apply(o, events[0]), events[1..])
  }

  lemma {:induction false} RunKeepsExact(o: Ontology, events: seq<Event>)
    requires Exact(o) && ValidRun(o, events)
    ensures Exact(Run(o, events))
    decreases |events|
  {
    if events != [] {
      StepKeepsExact(o, events[0]);
      RunKeepsExact(Apply(o, events[0]), events[1..]);
    }
  }

  lemma {:induction false} RunKeepsBase(o: Ontology, events: seq<Event>)
    requires ValidRun(o, events)
    ensures Base(Run(o, events)).Keys == Base(o).Keys + Planted(o, events)
    ensures forall s :: s in Base(o) ==> Base(Run(o, events))[s] == Base(o)[s]
    decreases |events|
  {
    if events != [] {
      StepKeepsBase(o, events[0]);
      RunKeepsBase(Apply(o, events[0]), events[1..]);
    }
  }

  lemma ExactMeansUnion(o: Ontology)
    requires Exact(o)
    ensures o.axioms.Keys == Base(o).Keys + Standing(o) && Base(o).Keys !! Standing(o)
  {
    forall s ensures s in o.axioms <==> s in Base(o) || s in Standing(o) {
      if s in Standing(o) {
        var b :| CanUndo(o, b) && s in o.adoptions[b].shapes;
      }
    }
    forall s | s in Standing(o) ensures s !in Base(o) {
      var b :| CanUndo(o, b) && s in o.adoptions[b].shapes;
    }
  }

  /** Whatever is seeded, adopted and undone in whatever order, the axioms are what was there from code and
      humans, what seedings planted, and the shapes of precisely the batches not undone; the rows of the
      first kind are unchanged and no shape is of the first two kinds and the third. */
  lemma AxiomsAreSeedPlusStanding(o: Ontology, events: seq<Event>)
    requires Exact(o) && ValidRun(o, events)
    ensures var o' := Run(o, events);
      && o'.axioms.Keys == (Base(o).Keys + Planted(o, events)) + Standing(o')
      && Base(o).Keys + Planted(o, events) !! Standing(o')
      && forall s :: s in Base(o) ==> s in o'.axioms && o'.axioms[s] == o.axioms[s]
  {
    var o' := Run(o, events);
    RunKeepsExact(o, events);
    RunKeepsBase(o, events);
    ExactMeansUnion(o');
    forall s | s in Base(o) ensures s in o'.axioms && o'.axioms[s] == o.axioms[s] {
      assert s in Base(o') && Base(o')[s] == Base(o)[s];
    }
  }

  /** The shapes the seedings of a run named. */
  function Named(events: seq<Event>): set<Shape>
    decreases |events|
  {
    if events == [] then {}
    else (if events[0].Seed? then set s | s in events[0].shapes else {}) + Named(events[1..])
  }

  ghost predicate SurvivesAll(o: Ontology, shapes: set<Shape>) {
    forall later :: ValidRun(o, later) ==> shapes <= Run(o, later).axioms.Keys
  }

  /** Every seeded shape is there for good, whatever follows, exactly when each was absent at one of its
      seedings or in the table unowned before: a seeding of a shape that stands adopted adds nothing, and
      undoing the adoption then takes the shape away. */
  lemma SeededSurviveIff(o: Ontology, events: seq<Event>)
    requires Exact(o) && ValidRun(o, events)
    ensures SurvivesAll(Run(o, events), Named(events)) <==> Named(events) <= Base(o).Keys + Planted(o, events)
  {
    var o' := Run(o, events);
    RunKeepsExact(o, events);
    RunKeepsBase(o, events);
    if Named(events) <= Base(o).Keys + Planted(o, events) {
      forall later | ValidRun(o', later) ensures Named(events) <= Run(o', later).axioms.Keys {
        RunKeepsBase(o', later);
        assert Base(o').Keys <= Base(Run(o', later)).Keys <= Run(o', later).axioms.Keys;
      }
    } else {
      var s :| s in Named(events) && s !in Base(o').Keys;
      if s in o'.axioms {
        var later := [Undo(o'.axioms[s].adoptedBatch.value)];
        assert later[1..] == [] && ValidRun(Apply(o', later[0]), later[1..]) && ValidRun(o', later);
        assert Run(o', later) == Apply(o', later[0]);
        assert s !in Run(o', later).axioms;
      } else {
        assert ValidRun(o', []) && Run(o', []) == o';
      }
    }
  }

  lemma ThreeSteps(o: Ontology, a: Event, b: Event, c: Event)
    requires Enabled(o, a) && Enabled(Apply(o, a), b) && Enabled(Apply(Apply(o, a), b), c)
    ensures ValidRun(o, [a, b, c]) && Run(o, [a, b, c]) == Apply(Apply(Apply(o, a), b), c)
  {
    assert [a, b, c][1..] == [b, c] && [b, c][1..] == [c] && [c][1..] == [];
    var o2 := Apply(Apply(o, a), b);
    assert ValidRun(o2, [c]) && Run(o2, [c]) == Apply(o2, c);
    assert ValidRun(Apply(o, a), [b, c]) && Run(Apply(o, a), [b, c]) == Run(o2, [c]);
  }

  /** Adopt a shape, seed it, undo the adoption: the seeded shape is gone. */
  lemma SeedOfAdoptedIsLost(o: Ontology, s: Shape, batch: string, minDocs: int, minFacts: int, columns: string)
    requires IsCandidate(o, s, minDocs, minFacts) && batch !in o.adoptions
    ensures var adopt, seed := Adopt([s], batch, minDocs, minFacts), Seed([s], columns);
      ValidRun(o, [adopt, seed, Undo(batch)]) && s !in Run(o, [adopt, seed, Undo(batch)]).axioms
  {
    var adopt, seed := Adopt([s], batch, minDocs, minFacts), Seed([s], columns);
    var o1 := Apply(o, adopt);
    var o2 := Apply(o1, seed);
    assert o1.axioms[s] == Axiom(ADOPTED_COLUMNS, Some(batch)) && o2.axioms == o1.axioms;
    ThreeSteps(o, adopt, seed, Undo(batch));
  }

  /** An adoption passes over dismissed shapes and leaves those already in the table as they are. */
  lemma DismissedIsNeverAdopted(o: Ontology, e: Event, s: Shape)
    requires Enabled(o, e) && e.Adopt? && (Dismissed(o, MissKey(s)) || s in o.axioms)
    ensures s in Apply(o, e).axioms <==> s in o.axioms
    ensures s in o.axioms ==> Apply(o, e).axioms[s] == o.axioms[s]
  {
  }

  /** No run of adoptions ever brings in a dismissed shape, however often it recurs: an absent one is in the
      table later exactly when a seeding from code put it there. */
  lemma {:induction false} DismissalLasts(o: Ontology, events: seq<Event>, s: Shape)
    requires ValidRun(o, events) && Dismissed(o, MissKey(s)) && s !in o.axioms
    ensures Dismissed(Run(o, events), MissKey(s))
    ensures s in Run(o, events).axioms <==> s in Planted(o, events)
    decreases |events|
  {
    if events != [] {
      var o', rest := Apply(o, events[0]), events[1..];
      if events[0].Adopt? { DismissedIsNeverAdopted(o, events[0], s); }
      if s in o'.axioms {
        assert s in Base(o');
        RunKeepsBase(o', rest);
        assert s in Base(Run(o', rest));
        MissesLast(o', rest, MissKey(s));
      } else {
        DismissalLasts(o', rest, s);
      }
    }
  }

  lemma {:induction false} MissesLast(o: Ontology, events: seq<Event>, key: string)
    requires ValidRun(o, events) && Dismissed(o, key)
    ensures Dismissed(Run(o, events), key)
    decreases |events|
  {
    if events != [] { MissesLast(Apply(o, events[0]), events[1..], key); }
  }

  /** Taken apart, the two steps lose the property: shapes chosen before another batch adopted them make two
      batches list the same shape, and undoing the first removes it although the second stands. */
  lemma StaleCandidatesBreakIt(o: Ontology, s: Shape, a: string, b: string)
    requires a != b && a !in o.adoptions && b !in o.adoptions && s !in o.axioms
    requires forall x :: x in o.axioms ==> o.axioms[x].adoptedBatch != Some(a)
    ensures var o' := Unadopted(Adopted(Adopted(o, [s], a), [s], b), a);
      s !in o'.axioms && CanUndo(o', b) && s in o'.adoptions[b].shapes && s in Standing(o')
  {
    var o' := Unadopted(Adopted(Adopted(o, [s], a), [s], b), a);
    assert CanUndo(o', b) && s in o'.adoptions[b].shapes;
  }

  /** One adoption keeps the table exact if and only if none of its shapes is already there. */
  lemma AdoptionIsExactIff(o: Ontology, shapes: seq<Shape>, batch: string)
    requires Exact(o) && batch !in o.adoptions
    ensures Exact(Adopted(o, shapes, batch)) <==> forall s :: s in shapes ==> s !in o.axioms
  {
    if forall s :: s in shapes ==> s !in o.axioms {
      AdoptKeepsExact(o, shapes, batch);
    } else {
      var s :| s in shapes && s in o.axioms;
      var o' := Adopted(o, shapes, batch);
      assert CanUndo(o', batch) && s in o'.adoptions[batch].shapes && o'.axioms[s] == o.axioms[s];
      assert o.axioms[s].adoptedBatch == Some(batch) ==> CanUndo(o, batch);
    }
  }
}

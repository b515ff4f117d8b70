/** A changelog as an index of intervals: connectors/jira/api.py::field_intervals.
    Timestamps are text, compared as text. */
module FieldHistory {
  import opened Options
  import opened Text

  datatype Value = Value(id: Option<string>, name: Option<string>)

  datatype Change = Change(at: string, field: string, before: Value, after: Value)

  datatype Interval = Interval(start: string, end: Option<string>, value: Value)

  predicate Truthy(s: Option<string>) { s.Some? && s.value != "" }

  /** A value worth an interval. */
  predicate Shown(v: Value) { Truthy(v.id) || Truthy(v.name) }

  function Relevant(changes: seq<Change>, field: string): seq<Change> {
    if changes == [] then []
    else (if changes[0].field == field && changes[0].at != "" then [changes[0]] else []) + Relevant(changes[1..], field)
  }

  lemma {:induction false} RelevantIsSound(changes: seq<Change>, field: string)
    ensures forall c :: c in Relevant(changes, field) ==> c in changes && c.field == field && c.at != ""
  {
    if changes != [] { RelevantIsSound(changes[1..], field); }
  }

  ghost predicate SortedByTime(cs: seq<Change>) {
    forall i, j :: 0 <= i < j < |cs| ==> AtMost(cs[i].at, cs[j].at)
  }

  // ---------------------------------------------------------------- the two readings of a changelog

  /** The value at time t: replay, in order, every change made by then. */
  function Replay(v: Value, cs: seq<Change>, t: string): Value
    decreases |cs|
  {
    if cs == [] then v else Replay(if AtMost(cs[0].at, t) then cs[0].after else v, cs[1..], t)
  }

  /** The index: one interval per stretch with a value worth showing. */
  function Index(start: string, v: Value, cs: seq<Change>): seq<Interval>
    decreases |cs|
  {
    (if Shown(v) then [Interval(start, if cs == [] then None else Some(cs[0].at), v)] else [])
    + if cs == [] then [] else Index(cs[0].at, cs[0].after, cs[1..])
  }

  function FieldIndex(created: string, current: Value, changes: seq<Change>, field: string): seq<Interval> {
    var cs := Relevant(changes, field);
    if cs == [] then
      if created != "" && Shown(current) then [Interval(created, None, current)] else []
    else Index(if created != "" then created else cs[0].at, cs[0].before, cs)
  }

  /** What the field held first: what its first change started from, or what it holds still. */
  function FirstValue(current: Value, changes: seq<Change>, field: string): Value {
    if changes == [] then current
    else if changes[0].field == field && changes[0].at != "" then changes[0].before
    else FirstValue(current, changes[1..], field)
  }

  /** Going through the whole changelog: every timed change of the field made by t takes effect. */
  function Held(v: Value, changes: seq<Change>, field: string, t: string): Value
    decreases |changes|
  {
    if changes == [] then v
    else
      var c := changes[0];
      Held(if c.field == field && c.at != "" && AtMost(c.at, t) then c.after else v, changes[1..], field, t)
  }

  /** What the field held at time t, according to the changelog. */
  function ValueAt(current: Value, changes: seq<Change>, field: string, t: string): Value {
    Held(FirstValue(current, changes, field), changes, field, t)
  }

  predicate Contains(iv: Interval, t: string) {
    AtMost(iv.start, t) && (iv.end.Some? ==> Before(t, iv.end.value))
  }

  // ---------------------------------------------------------------- field_intervals

  lemma {:induction false} IndexIsClean(start: string, v: Value, cs: seq<Change>)
    requires start != "" && forall c :: c in cs ==> c.at != ""
    ensures forall iv :: iv in Index(start, v, cs) ==> iv.start != "" && Shown(iv.value)
    decreases |cs|
  {
    if cs != [] { IndexIsClean(cs[0].at, cs[0].after, cs[1..]); }
  }

  lemma IndexStep(start: string, v: Value, cs: seq<Change>, k: nat)
    requires k < |cs|
    ensures Index(start, v, cs[k..]) ==
      (if Shown(v) then [Interval(start, Some(cs[k].at), v)] else []) + Index(cs[k].at, cs[k].after, cs[k + 1..])
  {
    assert cs[k..][0] == cs[k] && cs[k..][1..] == cs[k + 1..];
  }

  lemma Associative(a: seq<Interval>, b: seq<Interval>, c: seq<Interval>)
    ensures a + (b + c) == (a + b) + c
  {
  }

  /** The loop over the changes with its three cursor variables. */
  method Walk(start: string, v: Value, relevant: seq<Change>) returns (intervals: seq<Interval>)
    ensures intervals == Index(start, v, relevant)
  {
    intervals := [];
    var cursor, cursorStart := v, start;
    ghost var rest := Index(start, v, relevant);
    assert relevant[0..] == relevant;
    for k := 0 to |relevant|
      invariant rest == Index(cursorStart, cursor, relevant[k..])
      invariant Index(start, v, relevant) == intervals + rest
    {
      var change := relevant[k];
      IndexStep(cursorStart, cursor, relevant, k);
      rest := Index(change.at, change.after, relevant[k + 1..]);
      if Shown(cursor) {
        Associative(intervals, [Interval(cursorStart, Some(change.at), cursor)], rest);
        intervals := intervals + [Interval(cursorStart, Some(change.at), cursor)];
      } else {
        assert [] + rest == rest;
      }
      cursor, cursorStart := change.after, change.at;
    }
    if Shown(cursor) {
      intervals := intervals + [Interval(cursorStart, None, cursor)];
    }
  }

  /** The closing filter, which finds nothing to drop. */
  method DropBlank(intervals: seq<Interval>) returns (result: seq<Interval>)
    requires forall iv :: iv in intervals ==> iv.start != "" && Shown(iv.value)
    ensures result == intervals
  {
    result := [];
    for k := 0 to |intervals|
      invariant result == intervals[..k]
    {
      assert intervals[k] in intervals;
      if intervals[k].start != "" && Shown(intervals[k].value) {
        result := result + [intervals[k]];
      }
    }
  }

  method FieldIntervals(created: string, current: Value, changes: seq<Change>, field: string)
    returns (result: seq<Interval>)
    ensures result == FieldIndex(created, current, changes, field)
    ensures (forall c :: c in changes ==> c.field != field || c.at == "") ==>
      if created != "" &&
        ((current.id.Some? && current.id.value != "") || (current.name.Some? && current.name.value != ""))
      then result == [Interval(created, None, current)] else result == []
  {
    FirstOfRelevant(created, current, changes, field);
    var relevant := Relevant(changes, field);
    if relevant == [] {
      if created != "" && Shown(current) { return [Interval(created, None, current)]; }
      return [];
    }
    RelevantIsSound(changes, field);
    assert relevant[0] in relevant;
    var start := if created != "" then created else relevant[0].at;
    var intervals := Walk(start, relevant[0].before, relevant);
    IndexIsClean(start, relevant[0].before, relevant);
    result := DropBlank(intervals);
  }

  // ---------------------------------------------------------------- index = replay

  lemma {:induction false} NothingYet(v: Value, cs: seq<Change>, t: string)
    requires SortedByTime(cs) && (cs != [] ==> Before(t, cs[0].at))
    ensures Replay(v, cs, t) == v
  {
    if cs != [] {
      BeforeAsymmetric(t, cs[0].at);
      if |cs| > 1 {
        assert AtMost(cs[0].at, cs[1].at);
        AtMostTransitive(t, cs[0].at, cs[1].at);
      }
      SortedTail(cs);
      NothingYet(v, cs[1..], t);
    }
  }

  lemma SortedTail(cs: seq<Change>)
    requires SortedByTime(cs) && cs != []
    ensures SortedByTime(cs[1..])
    ensures |cs| > 1 ==> AtMost(cs[0].at, cs[1].at)
  {
  }

  /** From `start` on the intervals follow one another: none ends before it starts, the next starts no
      earlier than the one before ends, and only the last may be open. */
  predicate Chained(start: string, ivs: seq<Interval>)
    decreases |ivs|
  {
    ivs == [] ||
    (var iv := ivs[0];
     && AtMost(start, iv.start) && Shown(iv.value)
     && match iv.end
        case None => |ivs| == 1
        case Some(end) => AtMost(iv.start, end) && Chained(end, ivs[1..]))
  }

  lemma ChainedEarlier(start: string, later: string, ivs: seq<Interval>)
    requires AtMost(start, later) && Chained(later, ivs)
    ensures Chained(start, ivs)
  {
    if ivs != [] { AtMostTransitive(start, later, ivs[0].start); }
  }

  lemma {:induction false} IndexIsChained(start: string, v: Value, cs: seq<Change>)
    requires SortedByTime(cs) && (cs != [] ==> AtMost(start, cs[0].at))
    ensures Chained(start, Index(start, v, cs))
    decreases |cs|
  {
    if cs != [] {
      SortedTail(cs);
      var rest := Index(cs[0].at, cs[0].after, cs[1..]);
      IndexIsChained(cs[0].at, cs[0].after, cs[1..]);
      if Shown(v) {
        assert Index(start, v, cs)[1..] == rest;
      } else {
        ChainedEarlier(start, cs[0].at, rest);
        assert Index(start, v, cs) == rest;
      }
    }
  }

  /** The intervals that contain t, in order. */
  function At(ivs: seq<Interval>, t: string): seq<Interval> {
    if ivs == [] then [] else (if Contains(ivs[0], t) then [ivs[0]] else []) + At(ivs[1..], t)
  }

  /** Nothing in a chain contains a time before the chain starts. */
  lemma {:induction false} NotBeforeStart(start: string, ivs: seq<Interval>, t: string)
    requires Chained(start, ivs) && Before(t, start)
    ensures At(ivs, t) == []
    decreases |ivs|
  {
    if ivs != [] {
      var iv := ivs[0];
      AtMostTransitive(t, start, iv.start);
      BeforeAsymmetric(t, iv.start);
      match iv.end
      case None => assert ivs[1..] == [];
      case Some(end) =>
        AtMostTransitive(t, iv.start, end);
        NotBeforeStart(end, ivs[1..], t);
    }
  }

  /** What a reader of the index sees at a time when the field held v. */
  predicate ShowsExactly(found: seq<Interval>, v: Value) {
    if Shown(v) then |found| == 1 && found[0].value == v else found == []
  }

  lemma AtCons(iv: Interval, rest: seq<Interval>, t: string)
    ensures At([iv] + rest, t) == (if Contains(iv, t) then [iv] else []) + At(rest, t)
  {
    assert ([iv] + rest)[1..] == rest;
  }

  /** One change: before it the old value is seen, from it on whatever the rest shows. */
  lemma AtChange(start: string, v: Value, cs: seq<Change>, t: string)
    requires cs != [] && AtMost(start, t)
    ensures var rest := At(Index(cs[0].at, cs[0].after, cs[1..]), t);
      At(Index(start, v, cs), t) ==
        (if Shown(v) && Before(t, cs[0].at) then [Interval(start, Some(cs[0].at), v)] else []) + rest
  {
    var iv, rest := Interval(start, Some(cs[0].at), v), Index(cs[0].at, cs[0].after, cs[1..]);
    if Shown(v) {
      AtCons(iv, rest, t);
    } else {
      assert Index(start, v, cs) == rest;
    }
  }

  lemma {:induction false} IndexAgreesWithReplay(start: string, v: Value, cs: seq<Change>, t: string)
    requires SortedByTime(cs) && (cs != [] ==> AtMost(start, cs[0].at)) && AtMost(start, t)
    ensures ShowsExactly(At(Index(start, v, cs), t), Replay(v, cs, t))
    decreases |cs|
  {
    if cs == [] {
      if Shown(v) { AtCons(Interval(start, None, v), [], t); }
    } else {
      SortedTail(cs);
      AtChange(start, v, cs, t);
      if Before(t, cs[0].at) {
        NothingYet(v, cs, t);
        IndexIsChained(cs[0].at, cs[0].after, cs[1..]);
        NotBeforeStart(cs[0].at, Index(cs[0].at, cs[0].after, cs[1..]), t);
      } else {
        BeforeTotal(t, cs[0].at);
        IndexAgreesWithReplay(cs[0].at, cs[0].after, cs[1..], t);
      }
    }
  }

  lemma {:induction false} RelevantIsSorted(changes: seq<Change>, field: string)
    requires SortedByTime(changes)
    ensures SortedByTime(Relevant(changes, field))
  {
    if changes != [] {
      SortedTail(changes);
      RelevantIsSorted(changes[1..], field);
      RelevantIsSound(changes[1..], field);
      forall c | c in Relevant(changes[1..], field) ensures AtMost(changes[0].at, c.at) {
        var j :| 0 <= j < |changes[1..]| && changes[1..][j] == c;
        assert changes[j + 1] == c;
      }
    }
  }

  /** The filter loses no change of the field: replaying what it keeps is replaying the whole changelog. */
  lemma {:induction false} HeldIsReplay(v: Value, changes: seq<Change>, field: string, t: string)
    ensures Held(v, changes, field, t) == Replay(v, Relevant(changes, field), t)
    decreases |changes|
  {
    if changes != [] {
      var c, rest := changes[0], Relevant(changes[1..], field);
      if c.field == field && c.at != "" {
        assert Relevant(changes, field)[1..] == rest;
        HeldIsReplay(if AtMost(c.at, t) then c.after else v, changes[1..], field, t);
      } else {
        assert Relevant(changes, field) == rest;
        HeldIsReplay(v, changes[1..], field, t);
      }
    }
  }

  /** No change of the field with a time. */
  predicate Unchanged(changes: seq<Change>, field: string) {
    forall c :: c in changes ==> !(c.field == field && c.at != "")
  }

  /** Changes sorted by time, none of the field before the record was created. */
  ghost predicate Coherent(created: string, changes: seq<Change>, field: string) {
    && SortedByTime(changes)
    && forall c :: c in changes && c.field == field && c.at != "" && created != "" ==> AtMost(created, c.at)
  }

  /** The index starts with the record, or with the first change when the creation time is unknown. */
  function Origin(created: string, changes: seq<Change>, field: string): string {
    if created != "" || changes == [] then created
    else if changes[0].field == field && changes[0].at != "" then changes[0].at
    else Origin(created, changes[1..], field)
  }

  lemma {:induction false} FirstOfRelevant(created: string, current: Value, changes: seq<Change>, field: string)
    ensures var cs := Relevant(changes, field);
      && (cs == [] <==> Unchanged(changes, field))
      && Origin(created, changes, field) == (if created == "" && cs != [] then cs[0].at else created)
      && FirstValue(current, changes, field) == if cs == [] then current else cs[0].before
    ensures Coherent(created, changes, field) && Relevant(changes, field) != [] ==>
      AtMost(Origin(created, changes, field), Relevant(changes, field)[0].at)
  {
    RelevantIsSound(changes, field);
    if changes != [] {
      FirstOfRelevant(created, current, changes[1..], field);
      assert changes[0] in changes && forall c :: c in changes <==> c == changes[0] || c in changes[1..];
    }
    var cs := Relevant(changes, field);
    if cs != [] { assert cs[0] in cs; }
  }

  /** The index agrees with replaying the changelog, same-time changes included: at any time from the
      origin on, exactly one interval contains it if the replayed value is worth showing, and carries that
      value; otherwise none does - except when there is neither a change nor a creation time to start from and
      the current value is worth showing. The intervals are in order, do not overlap, and only the last is open. */
  lemma HistoryIsExact(created: string, current: Value, changes: seq<Change>, field: string, t: string)
    requires Coherent(created, changes, field) && AtMost(Origin(created, changes, field), t)
    ensures Chained(Origin(created, changes, field), FieldIndex(created, current, changes, field))
    ensures ShowsExactly(At(FieldIndex(created, current, changes, field), t), ValueAt(current, changes, field, t)) <==>
      !(Unchanged(changes, field) && created == "" && Shown(current))
  {
    var origin, cs := Origin(created, changes, field), Relevant(changes, field);
    var first := FirstValue(current, changes, field);
    FirstOfRelevant(created, current, changes, field);
    HeldIsReplay(first, changes, field, t);
    RelevantIsSorted(changes, field);
    IndexIsChained(origin, first, cs);
    IndexAgreesWithReplay(origin, first, cs, t);
    if cs == [] && created == "" { assert FieldIndex(created, current, changes, field) == []; }
  }

  // ---------------------------------------------------------------- change by change

  /** Exactly one interval contains t, and it carries v. */
  ghost predicate OnlyOneShows(ivs: seq<Interval>, t: string, v: Value) {
    exists k :: 0 <= k < |ivs| && ivs[k].value == v && forall m :: 0 <= m < |ivs| ==>
      (m == k <==> AtMost(ivs[m].start, t) && (ivs[m].end.None? || Before(t, ivs[m].end.value)))
  }

  lemma {:induction false} NothingAt(ivs: seq<Interval>, t: string)
    requires At(ivs, t) == []
    ensures forall m :: 0 <= m < |ivs| ==> !Contains(ivs[m], t)
  {
    if ivs != [] {
      NothingAt(ivs[1..], t);
      assert forall m :: 0 < m < |ivs| ==> ivs[m] == ivs[1..][m - 1];
    }
  }

  lemma {:induction false} OneAt(ivs: seq<Interval>, t: string) returns (k: nat)
    requires |At(ivs, t)| == 1
    ensures k < |ivs| && ivs[k] == At(ivs, t)[0]
    ensures forall m :: 0 <= m < |ivs| ==> (m == k <==> Contains(ivs[m], t))
  {
    var rest := ivs[1..];
    assert forall m :: 0 < m < |ivs| ==> ivs[m] == rest[m - 1];
    if Contains(ivs[0], t) {
      NothingAt(rest, t);
      k := 0;
    } else {
      var j := OneAt(rest, t);
      k := j + 1;
    }
  }

  lemma ShownAt(ivs: seq<Interval>, t: string, v: Value)
    requires ShowsExactly(At(ivs, t), v)
    ensures Shown(v) ==> OnlyOneShows(ivs, t, v)
    ensures !Shown(v) ==> forall m :: 0 <= m < |ivs| ==> !Contains(ivs[m], t)
  {
    if Shown(v) { var k := OneAt(ivs, t); } else { NothingAt(ivs, t); }
  }

  lemma {:induction false} HeldKeeps(v: Value, changes: seq<Change>, field: string, t: string)
    requires forall c :: c in changes && c.field == field && c.at != "" ==> !AtMost(c.at, t)
    ensures Held(v, changes, field, t) == v
    decreases |changes|
  {
    if changes != [] { HeldKeeps(v, changes[1..], field, t); }
  }

  lemma {:induction false} HeldAfter(v: Value, changes: seq<Change>, field: string, t: string, i: nat)
    requires i < |changes| && changes[i].field == field && changes[i].at != "" && AtMost(changes[i].at, t)
    requires forall j :: i < j < |changes| && changes[j].field == field && changes[j].at != "" ==>
      !AtMost(changes[j].at, t)
    ensures Held(v, changes, field, t) == changes[i].after
    decreases |changes|
  {
    var c, rest := changes[0], changes[1..];
    if i == 0 {
      HeldKeeps(c.after, rest, field, t);
    } else {
      HeldAfter(if c.field == field && c.at != "" && AtMost(c.at, t) then c.after else v, rest, field, t, i - 1);
    }
  }

  lemma {:induction false} FirstValueIs(current: Value, changes: seq<Change>, field: string, i: nat)
    requires i < |changes| && changes[i].field == field && changes[i].at != ""
    requires forall j :: 0 <= j < i ==> !(changes[j].field == field && changes[j].at != "")
    ensures FirstValue(current, changes, field) == changes[i].before
  {
    if i > 0 { FirstValueIs(current, changes[1..], field, i - 1); }
  }

  lemma {:induction false} OriginIsEarly(created: string, changes: seq<Change>, field: string, i: nat)
    requires Coherent(created, changes, field)
    requires i < |changes| && changes[i].field == field && changes[i].at != ""
    ensures AtMost(Origin(created, changes, field), changes[i].at)
  {
    if created == "" && !(changes[0].field == field && changes[0].at != "") {
      OriginIsEarly(created, changes[1..], field, i - 1);
    }
  }

  /** From a change of the field on until the next one, exactly one interval shows, and shows what the change led
      to - if that has an id or a name; otherwise none does. */
  lemma ShowsLatestChange(created: string, current: Value, changes: seq<Change>, field: string, t: string, i: nat)
    requires SortedByTime(changes)
    requires forall j :: 0 <= j < |changes| && changes[j].field == field && changes[j].at != "" && created != "" ==>
      AtMost(created, changes[j].at)
    requires i < |changes| && changes[i].field == field && changes[i].at != "" && AtMost(changes[i].at, t)
    requires forall j :: i < j < |changes| && changes[j].field == field && changes[j].at != "" ==>
      !AtMost(changes[j].at, t)
    ensures var ivs, v := FieldIndex(created, current, changes, field), changes[i].after;
      if (v.id.Some? && v.id.value != "") || (v.name.Some? && v.name.value != "")
      then exists k :: 0 <= k < |ivs| && ivs[k].value == v && forall m :: 0 <= m < |ivs| ==>
        (m == k <==> AtMost(ivs[m].start, t) && (ivs[m].end.None? || Before(t, ivs[m].end.value)))
      else forall m :: 0 <= m < |ivs| ==>
        !(AtMost(ivs[m].start, t) && (ivs[m].end.None? || Before(t, ivs[m].end.value)))
  {
    var origin := Origin(created, changes, field);
    OriginIsEarly(created, changes, field, i);
    AtMostTransitive(origin, changes[i].at, t);
    HistoryIsExact(created, current, changes, field, t);
    HeldAfter(FirstValue(current, changes, field), changes, field, t, i);
    assert changes[i] in changes;
    ShownAt(FieldIndex(created, current, changes, field), t, changes[i].after);
  }

  /** Before the first change of the field, what that change started from shows. */
  lemma ShowsFirstValue(created: string, current: Value, changes: seq<Change>, field: string, t: string, i: nat)
    requires SortedByTime(changes) && created != "" && AtMost(created, t)
    requires forall j :: 0 <= j < |changes| && changes[j].field == field && changes[j].at != "" ==>
      AtMost(created, changes[j].at) && !AtMost(changes[j].at, t)
    requires i < |changes| && changes[i].field == field && changes[i].at != ""
    requires forall j :: 0 <= j < i ==> !(changes[j].field == field && changes[j].at != "")
    ensures var ivs, v := FieldIndex(created, current, changes, field), changes[i].before;
      if (v.id.Some? && v.id.value != "") || (v.name.Some? && v.name.value != "")
      then exists k :: 0 <= k < |ivs| && ivs[k].value == v && forall m :: 0 <= m < |ivs| ==>
        (m == k <==> AtMost(ivs[m].start, t) && (ivs[m].end.None? || Before(t, ivs[m].end.value)))
      else forall m :: 0 <= m < |ivs| ==>
        !(AtMost(ivs[m].start, t) && (ivs[m].end.None? || Before(t, ivs[m].end.value)))
  {
    FirstValueIs(current, changes, field, i);
    HeldKeeps(FirstValue(current, changes, field), changes, field, t);
    HistoryIsExact(created, current, changes, field, t);
    ShownAt(FieldIndex(created, current, changes, field), t, changes[i].before);
  }

  /** The intervals end open with v since `at`, or, when v is not worth showing, not open at all. */
  predicate EndsWith(ivs: seq<Interval>, at: string, v: Value) {
    if Shown(v) then ivs != [] && ivs[|ivs| - 1] == Interval(at, None, v)
    else ivs == [] || ivs[|ivs| - 1].end.Some?
  }

  lemma EndsWithTail(head: seq<Interval>, rest: seq<Interval>, at: string, v: Value)
    requires EndsWith(rest, at, v) && (head == [] || (|head| == 1 && head[0].end.Some?))
    ensures EndsWith(head + rest, at, v)
  {
    if rest != [] { assert (head + rest)[|head + rest| - 1] == rest[|rest| - 1]; }
  }

  lemma {:induction false} OpenInterval(start: string, v: Value, cs: seq<Change>)
    ensures var last := |cs| - 1;
      if cs == [] then EndsWith(Index(start, v, cs), start, v)
      else EndsWith(Index(start, v, cs), cs[last].at, cs[last].after)
    decreases |cs|
  {
    if cs != [] {
      OpenInterval(cs[0].at, cs[0].after, cs[1..]);
      var rest, last := Index(cs[0].at, cs[0].after, cs[1..]), cs[|cs| - 1];
      EndsWithTail(if Shown(v) then [Interval(start, Some(cs[0].at), v)] else [], rest, last.at, last.after);
    }
  }

  lemma {:induction false} FirstRelevantIs(changes: seq<Change>, field: string, k: nat)
    requires k < |changes| && changes[k].field == field && changes[k].at != ""
    requires forall j :: 0 <= j < k ==> !(changes[j].field == field && changes[j].at != "")
    ensures Relevant(changes, field) != [] && Relevant(changes, field)[0] == changes[k]
  {
    if k > 0 { FirstRelevantIs(changes[1..], field, k - 1); }
  }

  lemma {:induction false} StretchInIndex(start: string, v: Value, changes: seq<Change>, field: string, i: nat, k: nat)
    requires i < k < |changes| && Shown(changes[i].after)
    requires changes[i].field == field && changes[i].at != "" && changes[k].field == field && changes[k].at != ""
    requires forall j :: i < j < k ==> !(changes[j].field == field && changes[j].at != "")
    ensures Interval(changes[i].at, Some(changes[k].at), changes[i].after) in Index(start, v, Relevant(changes, field))
    decreases |changes|
  {
    var c, rest := changes[0], changes[1..];
    var cs := Relevant(rest, field);
    if !(c.field == field && c.at != "") {
      assert Relevant(changes, field) == cs;
      StretchInIndex(start, v, rest, field, i - 1, k - 1);
    } else {
      assert Relevant(changes, field)[1..] == cs;
      if i == 0 {
        FirstRelevantIs(rest, field, k - 1);
      } else {
        StretchInIndex(c.at, c.after, rest, field, i - 1, k - 1);
      }
    }
  }

  /** From one change of the field to the next the index holds an interval with what the first led to, if that has an
      id or a name - also when both have the same time; and one from the start of the index to the first change. */
  lemma EveryStretchIsListed(created: string, current: Value, changes: seq<Change>, field: string, i: nat, k: nat)
    requires i < k < |changes|
    requires changes[i].field == field && changes[i].at != "" && changes[k].field == field && changes[k].at != ""
    requires forall j :: i < j < k ==> !(changes[j].field == field && changes[j].at != "")
    ensures var ivs, v := FieldIndex(created, current, changes, field), changes[i].after;
      (v.id.Some? && v.id.value != "") || (v.name.Some? && v.name.value != "") ==>
        Interval(changes[i].at, Some(changes[k].at), v) in ivs
    ensures var ivs, v := FieldIndex(created, current, changes, field), changes[i].before;
      && (forall j :: 0 <= j < i ==> !(changes[j].field == field && changes[j].at != ""))
      && ((v.id.Some? && v.id.value != "") || (v.name.Some? && v.name.value != "")) ==>
        Interval(if created != "" then created else changes[i].at, Some(changes[i].at), v) in ivs
  {
    var cs := Relevant(changes, field);
    RelevantIsSound(changes, field);
    assert changes[i] in changes;
    FirstOfRelevant(created, current, changes, field);
    var start := if created != "" then created else cs[0].at;
    if Shown(changes[i].after) { StretchInIndex(start, cs[0].before, changes, field, i, k); }
    if forall j :: 0 <= j < i ==> !(changes[j].field == field && changes[j].at != "") {
      FirstRelevantIs(changes, field, i);
    }
  }

  /** The changes of the field that led to a value worth showing. */
  function ShownChanges(changes: seq<Change>, field: string): nat {
    if changes == [] then 0
    else
      var c := changes[0];
      ShownChanges(changes[1..], field) +
      if c.field == field && c.at != "" &&
         ((c.after.id.Some? && c.after.id.value != "") || (c.after.name.Some? && c.after.name.value != ""))
      then 1 else 0
  }

  lemma {:induction false} IndexLength(start: string, v: Value, changes: seq<Change>, field: string)
    ensures |Index(start, v, Relevant(changes, field))| == ShownChanges(changes, field) + if Shown(v) then 1 else 0
    decreases |changes|
  {
    if changes != [] {
      var c, rest := changes[0], changes[1..];
      if c.field == field && c.at != "" {
        assert Relevant(changes, field)[1..] == Relevant(rest, field);
        IndexLength(c.at, c.after, rest, field);
      } else {
        assert Relevant(changes, field) == Relevant(rest, field);
        IndexLength(start, v, rest, field);
      }
    }
  }

  /** ... and no other interval: one for each shown change, and one for the value the first change started from. */
  lemma NothingElseIsListed(created: string, current: Value, changes: seq<Change>, field: string, i: nat)
    requires i < |changes| && changes[i].field == field && changes[i].at != ""
    requires forall j :: 0 <= j < i ==> !(changes[j].field == field && changes[j].at != "")
    ensures |FieldIndex(created, current, changes, field)| ==
      ShownChanges(changes, field) + if Shown(changes[i].before) then 1 else 0
  {
    var cs := Relevant(changes, field);
    FirstRelevantIs(changes, field, i);
    IndexLength(if created != "" then created else cs[0].at, cs[0].before, changes, field);
  }

  lemma {:induction false} LastOfRelevant(changes: seq<Change>, field: string, i: nat)
    requires i < |changes| && changes[i].field == field && changes[i].at != ""
    requires forall j :: i < j < |changes| ==> !(changes[j].field == field && changes[j].at != "")
    ensures var cs := Relevant(changes, field); cs != [] && cs[|cs| - 1] == changes[i]
  {
    var rest := changes[1..];
    if i > 0 {
      LastOfRelevant(rest, field, i - 1);
    } else {
      assert Unchanged(rest, field);
      FirstOfRelevant("", changes[0].after, rest, field);
    }
  }

  /** The open interval carries what the last change of the field led to, so it shows the current value exactly
      when that change leads to it: the current value is consulted only when there is no change at all. */
  lemma OpenIntervalIsCurrentIff(created: string, current: Value, changes: seq<Change>, field: string, i: nat)
    requires i < |changes| && changes[i].field == field && changes[i].at != ""
    requires forall j :: i < j < |changes| ==> !(changes[j].field == field && changes[j].at != "")
    ensures var ivs, v := FieldIndex(created, current, changes, field), changes[i].after;
      if (v.id.Some? && v.id.value != "") || (v.name.Some? && v.name.value != "")
      then
        && ivs != [] && ivs[|ivs| - 1] == Interval(changes[i].at, None, v)
        && (ivs[|ivs| - 1].value == current <==> v == current)
      else ivs == [] || ivs[|ivs| - 1].end.Some?
  {
    var cs := Relevant(changes, field);
    LastOfRelevant(changes, field, i);
    OpenInterval(if created != "" then created else cs[0].at, cs[0].before, cs);
  }

  /** One change that does not lead to the current value: the open interval shows what the change led to. */
  lemma OpenIntervalIsStale(created: string, at: string, field: string, before: Value, after: Value, current: Value)
    requires created != "" && at != "" && Shown(before) && Shown(after) && after != current
    ensures FieldIndex(created, current, [Change(at, field, before, after)], field) ==
      [Interval(created, Some(at), before), Interval(at, None, after)]
  {
    var changes := [Change(at, field, before, after)];
    assert changes[1..] == [] && Relevant([], field) == [];
    assert Relevant(changes, field) == changes + [] == changes;
    assert Index(at, after, []) == [Interval(at, None, after)];
  }
}

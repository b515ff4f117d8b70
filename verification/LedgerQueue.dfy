/** The budgeted semantic queue of connectors/core/ledger.py: pending_chunks, commit_chunk and
    record_fully_processed. `priority` maps each committed record to its semantic priority. */
module LedgerQueue {
  import opened Options
  import opened LedgerChunks
  import opened Sequences

  type Priorities = map<string, int>

  predicate Waiting(t: Chunks, priority: Priorities, key: Key) {
    key in t && t[key].status == Pending && t[key].supersededAt.None? && key.0 in priority
  }

  function WaitingKeys(t: Chunks, priority: Priorities): (keys: set<Key>)
    ensures forall key :: key in keys <==> Waiting(t, priority, key)
  {
    set key | key in t && Waiting(t, priority, key)
  }

  /** ORDER BY semantic_priority DESC, committed_at ASC, chunk_index ASC allows a before b. */
  predicate NoLater(t: Chunks, priority: Priorities, a: Key, b: Key)
    requires Waiting(t, priority, a) && Waiting(t, priority, b)
  {
    || priority[a.0] > priority[b.0]
    || (priority[a.0] == priority[b.0] &&
         (t[a].committedAt < t[b].committedAt || (t[a].committedAt == t[b].committedAt && t[a].index <= t[b].index)))
  }

  ghost predicate InOrder(t: Chunks, priority: Priorities, batch: seq<Key>) {
    && (forall key :: key in batch ==> Waiting(t, priority, key))
    && (forall i, j :: 0 <= i < j < |batch| ==> NoLater(t, priority, batch[i], batch[j]))
  }

  /** Everything left out of the batch may sort after everything in it. */
  ghost predicate TakesFirst(t: Chunks, priority: Priorities, batch: seq<Key>) {
    && (forall key :: key in batch ==> Waiting(t, priority, key))
    && (forall a, b :: a in batch && Waiting(t, priority, b) && b !in batch ==> NoLater(t, priority, a, b))
  }

  function Least(a: nat, b: nat): nat { if a <= b then a else b }

  /** What SELECT ... ORDER BY ... LIMIT may return; ties are the engine's choice. */
  ghost predicate IsBatch(t: Chunks, priority: Priorities, limit: nat, batch: seq<Key>) {
    && Distinct(batch) && InOrder(t, priority, batch) && TakesFirst(t, priority, batch)
    && |batch| == Least(limit, |WaitingKeys(t, priority)|)
  }

  // ---------------------------------------------------------------- selecting

  lemma NoLaterIsAnOrder(t: Chunks, priority: Priorities, a: Key, b: Key, c: Key)
    requires Waiting(t, priority, a) && Waiting(t, priority, b) && Waiting(t, priority, c)
    ensures NoLater(t, priority, a, b) || NoLater(t, priority, b, a)
    ensures NoLater(t, priority, a, b) && NoLater(t, priority, b, c) ==> NoLater(t, priority, a, c)
  {
  }

  ghost predicate IsFirst(t: Chunks, priority: Priorities, keys: set<Key>, a: Key) {
    && (forall b :: b in keys ==> Waiting(t, priority, b))
    && a in keys && forall b :: b in keys ==> NoLater(t, priority, a, b)
  }

  lemma {:induction false} FirstExists(t: Chunks, priority: Priorities, keys: set<Key>)
    requires keys != {} && forall key :: key in keys ==> Waiting(t, priority, key)
    ensures exists a :: IsFirst(t, priority, keys, a)
  {
    var x :| x in keys;
    var rest := keys - {x};
    if rest == {} {
      assert keys == {x};
      assert IsFirst(t, priority, keys, x);
    } else {
      FirstExists(t, priority, rest);
      var y :| IsFirst(t, priority, rest, y);
      var first := if NoLater(t, priority, x, y) then x else y;
      forall b | b in keys ensures NoLater(t, priority, first, b) {
        NoLaterIsAnOrder(t, priority, x, y, b);
      }
      assert IsFirst(t, priority, keys, first);
    }
  }

  method SelectPending(t: Chunks, priority: Priorities, limit: nat) returns (batch: seq<Key>)
    ensures IsBatch(t, priority, limit, batch)
  {
    batch := [];
    ghost var all := WaitingKeys(t, priority);
    var rest := WaitingKeys(t, priority);
    while |batch| < limit && rest != {}
      invariant |batch| <= limit && |batch| + |rest| == |all|
      invariant forall key :: key in all <==> key in rest || key in batch
      invariant forall key :: key in rest ==> key !in batch
      invariant Distinct(batch) && InOrder(t, priority, batch) && TakesFirst(t, priority, batch)
      decreases rest
    {
      FirstExists(t, priority, rest);
      ghost var least :| IsFirst(t, priority, rest, least);
      var key :| key in rest && forall b :: b in rest ==> NoLater(t, priority, key, b);
      batch := batch + [key];
      rest := rest - {key};
    }
  }

  // ---------------------------------------------------------------- what a save puts in the queue

  lemma {:induction false} RowStays(t: Chunks, events: seq<Event>, key: Key)
    requires key in t && t[key].status == Pending
    requires forall e :: e in events ==>
      && (e.Save? || e.Delete? ==> e.r != key.0)
      && (e.CommitChunk? ==> (e.r, e.id) != key)
      && (e.Purge? ==> key.0 !in e.records)
    ensures key in Run(t, events) && Run(t, events)[key] == t[key]
  {
    if events != [] {
      var before, e := events[..|events| - 1], events[|events| - 1];
      RowStays(t, before, key);
      if e.Save? { SaveLeavesTheRest(Run(t, before), e.r, e.writes, e.adoptFrom, e.now); }
    }
  }

  /** A chunk saved as pending is in the queue from then on - unless it was done, or its text was done where the
      record moved from - with the model's text of its last write, until its record is saved again, the chunk is
      committed or its record is removed. */
  lemma SavedChunkWaits(t: Chunks, r: string, writes: seq<ChunkWrite>, adoptFrom: Option<string>, now: real, i: nat,
                        later: seq<Event>, priority: Priorities)
    requires forall j :: 0 <= j < |writes| && (r, writes[j].id) in t ==> t[(r, writes[j].id)].supersededAt.None?
    requires i < |writes| && writes[i].status == Pending
    requires forall j :: i < j < |writes| ==> writes[j].id != writes[i].id
    requires if (r, writes[i].id) in t then t[(r, writes[i].id)].status != Done
             else forall key :: key in t && adoptFrom == Some(key.0) && t[key].text == writes[i].text ==>
               t[key].status != Done || t[key].supersededAt.Some?
    requires r in priority
    requires forall e :: e in later ==>
      && (e.Save? || e.Delete? ==> e.r != r)
      && (e.CommitChunk? ==> e.r != r || e.id != writes[i].id)
      && (e.Purge? ==> r !in e.records)
    ensures var t', key := Run(Apply(t, Save(r, writes, adoptFrom, now)), later), (r, writes[i].id);
      && key in WaitingKeys(t', priority)
      && t'[key].llmText == writes[i].llmText && t'[key].index == writes[i].index
      && t'[key].text == if key in t then t[key].text else writes[i].text
  {
    var t', key := Apply(t, Save(r, writes, adoptFrom, now)), (r, writes[i].id);
    if key in t {
      SaveUpdatesKept(t, r, writes, adoptFrom, now, i);
    } else {
      SaveWritesNew(t, r, writes, adoptFrom, now, i);
    }
    RowStays(t', later, key);
  }

  // ---------------------------------------------------------------- draining

  /** commit_chunk(..., DONE) for a whole batch. */
  function Drained(t: Chunks, batch: seq<Key>, now: real): Chunks {
    map key | key in t :: if key in batch then t[key].(status := Done, committedAt := now) else t[key]
  }

  /** Repeated passes with a budget of `limit`: each selects a batch and completes it. */
  ghost predicate IsDrain(t: Chunks, priority: Priorities, limit: nat, now: real, passes: seq<seq<Key>>)
    decreases |passes|
  {
    passes == [] ||
    (var earlier, last := passes[..|passes| - 1], passes[|passes| - 1];
     && IsDrain(t, priority, limit, now, earlier)
     && IsBatch(Drained(t, Visited(earlier), now), priority, limit, last))
  }

  function Visited(passes: seq<seq<Key>>): seq<Key> {
    if passes == [] then [] else Visited(passes[..|passes| - 1]) + passes[|passes| - 1]
  }

  lemma StillWaiting(t: Chunks, priority: Priorities, done: seq<Key>, now: real)
    ensures forall key :: Waiting(Drained(t, done, now), priority, key) <==> Waiting(t, priority, key) && key !in done
    ensures WaitingKeys(Drained(t, done, now), priority) == WaitingKeys(t, priority) - set key | key in done
    ensures forall a, b ::
      Waiting(Drained(t, done, now), priority, a) && Waiting(Drained(t, done, now), priority, b) ==>
      (NoLater(Drained(t, done, now), priority, a, b) <==> NoLater(t, priority, a, b))
  {
  }

  lemma {:induction false} DistinctSize(s: seq<Key>)
    requires Distinct(s)
    ensures |set key | key in s| == |s|
  {
    if s != [] {
      var front, last := s[..|s| - 1], s[|s| - 1];
      DistinctSize(front);
      assert (set key | key in s) == (set key | key in front) + {last};
    }
  }

  /** A batch that falls short of its limit leaves nothing behind. */
  lemma ShortBatchIsAll(t: Chunks, priority: Priorities, limit: nat, batch: seq<Key>)
    requires IsBatch(t, priority, limit, batch) && (|batch| < limit || limit == |WaitingKeys(t, priority)|)
    ensures forall key :: Waiting(t, priority, key) ==> key in batch
  {
    var all, taken := WaitingKeys(t, priority), set key | key in batch;
    DistinctSize(batch);
    assert taken <= all && |taken| == |all|;
    SubsetOfSameSize(taken, all);
  }

  lemma SubsetOfSameSize(a: set<Key>, b: set<Key>)
    requires a <= b && |a| == |b|
    ensures a == b
  {
    assert |b - a| == |b| - |a|;
  }

  lemma WaitingLeft(t: Chunks, priority: Priorities, done: seq<Key>, now: real)
    requires Distinct(done) && forall key :: key in done ==> Waiting(t, priority, key)
    ensures |WaitingKeys(Drained(t, done, now), priority)| == |WaitingKeys(t, priority)| - |done|
  {
    StillWaiting(t, priority, done, now);
    DistinctSize(done);
    var finished := set key | key in done;
    assert finished <= WaitingKeys(t, priority);
  }

  lemma Extends(t: Chunks, priority: Priorities, now: real, done: seq<Key>, next: seq<Key>)
    requires Distinct(done) && InOrder(t, priority, done) && TakesFirst(t, priority, done)
    requires var t' := Drained(t, done, now);
      Distinct(next) && InOrder(t', priority, next) && TakesFirst(t', priority, next)
    ensures Distinct(done + next) && InOrder(t, priority, done + next) && TakesFirst(t, priority, done + next)
  {
    StillWaiting(t, priority, done, now);
    var both := done + next;
    forall key | key in both ensures Waiting(t, priority, key) { assert key in done || key in next; }
    forall i, j | 0 <= i < j < |both| ensures both[i] != both[j] && NoLater(t, priority, both[i], both[j]) {
      if j < |done| {
        assert both[i] == done[i] && both[j] == done[j];
      } else {
        assert both[j] == next[j - |done|] && both[j] in next;
        if i < |done| { assert both[i] == done[i] && both[i] in done; } else { assert both[i] == next[i - |done|]; }
      }
    }
    forall a, b | a in both && Waiting(t, priority, b) && b !in both ensures NoLater(t, priority, a, b) {
      assert b !in done && b !in next;
      assert a in done || a in next;
    }
  }

  /** k passes with budget B visit what one query with budget k*B would return, in that order. */
  lemma {:induction false} PassesAreOneQuery(t: Chunks, priority: Priorities, limit: nat, now: real,
                                             passes: seq<seq<Key>>)
    requires IsDrain(t, priority, limit, now, passes)
    ensures IsBatch(t, priority, |passes| * limit, Visited(passes))
    decreases |passes|
  {
    if passes != [] {
      var earlier, last := passes[..|passes| - 1], passes[|passes| - 1];
      PassesAreOneQuery(t, priority, limit, now, earlier);
      var done := Visited(earlier);
      Extends(t, priority, now, done, last);
      WaitingLeft(t, priority, done, now);
      BudgetsAdd(|earlier|, limit, |WaitingKeys(t, priority)|);
      assert |passes| == |earlier| + 1;
    }
  }

  lemma BudgetsAdd(k: nat, limit: nat, n: nat)
    ensures (k + 1) * limit == k * limit + limit
    ensures Least(k * limit, n) + Least(limit, n - Least(k * limit, n)) == Least((k + 1) * limit, n)
  {
    assert (k + 1) * limit == k * limit + limit;
  }

  /** record_fully_processed: no live chunk of the record is anything but done. */
  ghost predicate FullyProcessed(t: Chunks, r: string) {
    forall key :: key in t && key.0 == r && t[key].supersededAt.None? ==> t[key].status == Done
  }

  /** Draining: every waiting chunk is visited at most once and in queue order; after k passes nothing
      waits exactly when the budget spent covers the n chunks, k * B >= n, so it takes ceil(n / B) passes. */
  lemma DrainTakesCeiling(t: Chunks, priority: Priorities, limit: nat, now: real, passes: seq<seq<Key>>)
    requires IsDrain(t, priority, limit, now, passes)
    ensures var n := |WaitingKeys(t, priority)|;
      && Distinct(Visited(passes)) && InOrder(t, priority, Visited(passes))
      && |WaitingKeys(Drained(t, Visited(passes), now), priority)| == n - Least(|passes| * limit, n)
      && (WaitingKeys(Drained(t, Visited(passes), now), priority) == {} <==> |passes| * limit >= n)
  {
    PassesAreOneQuery(t, priority, limit, now, passes);
    WaitingLeft(t, priority, Visited(passes), now);
  }

  /** When nothing waits any more, a record is fully processed unless one of its live chunks was neither
      done nor in the queue: not pending, or pending under a record that was never committed. */
  lemma DrainedRecords(t: Chunks, priority: Priorities, now: real, done: seq<Key>, r: string)
    requires (forall key :: key in done ==> Waiting(t, priority, key))
    requires WaitingKeys(Drained(t, done, now), priority) == {}
    ensures FullyProcessed(Drained(t, done, now), r) <==>
      forall key :: key in t && key.0 == r && t[key].supersededAt.None? ==>
        t[key].status == Done || (t[key].status == Pending && r in priority)
  {
    var t' := Drained(t, done, now);
    StillWaiting(t, priority, done, now);
    forall key | key in t && key.0 == r && t[key].supersededAt.None?
      ensures t'[key].status == Done <==> t[key].status == Done || (t[key].status == Pending && r in priority)
    {
      assert key !in WaitingKeys(t', priority);
    }
    if FullyProcessed(t', r) {
      forall key | key in t && key.0 == r && t[key].supersededAt.None?
        ensures t[key].status == Done || (t[key].status == Pending && r in priority)
      {
        assert key in t' && t'[key].supersededAt.None?;
      }
    }
  }
}

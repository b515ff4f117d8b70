/** Re-opening chunks after an adoption: requeue_chunks_for_shapes of connectors/core/ledger.py, and what
    it means for the semantic queue. */
module LedgerRequeue {
  import opened Options
  import opened LedgerChunks
  import opened LedgerQueue
  import opened LedgerAdoption

  /** The chunk had an extraction of one of these shapes refused. */
  predicate Hits(drops: seq<Drop>, key: Key, shapes: seq<Shape>) {
    exists i :: 0 <= i < |drops| && drops[i].recordKey == key.0 && drops[i].chunkId == key.1 && drops[i].shape in shapes
  }

  function Reopened(t: Chunks, drops: seq<Drop>, shapes: seq<Shape>): set<Key> {
    set key | key in t && Live(t, key) && Hits(drops, key, shapes)
  }

  function Requeued(t: Chunks, drops: seq<Drop>, shapes: seq<Shape>): Chunks {
    WithPending(t, Reopened(t, drops, shapes))
  }

  lemma QueueGrowsByReopened(t: Chunks, priority: Priorities, drops: seq<Drop>, shapes: seq<Shape>)
    ensures WaitingKeys(Requeued(t, drops, shapes), priority) ==
      WaitingKeys(t, priority) + set key | key in Reopened(t, drops, shapes) && key.0 in priority
  {
    var t' := Requeued(t, drops, shapes);
    forall key ensures Waiting(t', priority, key) <==>
      Waiting(t, priority, key) || (key in Reopened(t, drops, shapes) && key.0 in priority)
    {
      if key in t { assert t'[key].supersededAt == t[key].supersededAt; }
    }
  }

  /** The chunks a requeue adds to the queue: reopened ones of committed records that were not waiting. */
  function Extra(t: Chunks, priority: Priorities, drops: seq<Drop>, shapes: seq<Shape>): set<Key> {
    set key | key in Reopened(t, drops, shapes) && key.0 in priority && !Waiting(t, priority, key)
  }

  /** Only chunks with something to gain are extracted again: after a requeue, k passes with budget B empty the
      queue exactly when they cover what was waiting and the chunks reopened, and no other chunk is visited. */
  lemma RequeueThenDrain(t: Chunks, priority: Priorities, drops: seq<Drop>, shapes: seq<Shape>, limit: nat, now: real,
                         passes: seq<seq<Key>>)
    requires IsDrain(Requeued(t, drops, shapes), priority, limit, now, passes)
    ensures WaitingKeys(Drained(Requeued(t, drops, shapes), Visited(passes), now), priority) == {} <==>
      |passes| * limit >= |WaitingKeys(t, priority)| + |Extra(t, priority, drops, shapes)|
    ensures forall key :: key in Visited(passes) ==> Waiting(t, priority, key) || key in Reopened(t, drops, shapes)
  {
    var t' := Requeued(t, drops, shapes);
    QueueGrowsByReopened(t, priority, drops, shapes);
    assert WaitingKeys(t', priority) == WaitingKeys(t, priority) + Extra(t, priority, drops, shapes);
    DrainTakesCeiling(t', priority, limit, now, passes);
    forall key | key in Visited(passes) ensures Waiting(t, priority, key) || key in Reopened(t, drops, shapes) {
      assert key in WaitingKeys(t', priority);
    }
  }

  lemma FullyProcessedAfterRequeueIff(t: Chunks, drops: seq<Drop>, shapes: seq<Shape>, r: string)
    requires FullyProcessed(t, r)
    ensures FullyProcessed(Requeued(t, drops, shapes), r) <==> forall id :: (r, id) !in Reopened(t, drops, shapes)
  {
    var t' := Requeued(t, drops, shapes);
    if id :| (r, id) in Reopened(t, drops, shapes) {
      assert (r, id) in t' && t'[(r, id)].supersededAt.None? && t'[(r, id)].status == Pending;
    } else {
      forall key | key in t' && key.0 == r && t'[key].supersededAt.None? ensures t'[key].status == Done {
        assert (r, key.1) == key;
      }
    }
  }

  /** A committed record that was fully processed stays so exactly when none of its live chunks was refused such a
      shape - its own row is not touched, so its semantic status may say done while chunks wait - and is so again
      once the queue has been drained. */
  lemma RequeuedRecordRecovers(t: Chunks, priority: Priorities, drops: seq<Drop>, shapes: seq<Shape>, limit: nat,
                               now: real, passes: seq<seq<Key>>, r: string)
    requires FullyProcessed(t, r) && r in priority
    requires IsDrain(Requeued(t, drops, shapes), priority, limit, now, passes)
    ensures FullyProcessed(Requeued(t, drops, shapes), r) <==> forall id :: (r, id) !in Reopened(t, drops, shapes)
    ensures var t' := Drained(Requeued(t, drops, shapes), Visited(passes), now);
      WaitingKeys(t', priority) == {} ==> FullyProcessed(t', r)
  {
    var t' := Requeued(t, drops, shapes);
    FullyProcessedAfterRequeueIff(t, drops, shapes, r);
    DrainTakesCeiling(t', priority, limit, now, passes);
    if WaitingKeys(Drained(t', Visited(passes), now), priority) == {} {
      DrainedRecords(t', priority, now, Visited(passes), r);
    }
  }

  /** Adopting a candidate reopens work: a shape that clears the bar was refused in some chunk, and if that
      chunk is still live and its record committed, it waits in the queue again. */
  lemma CandidateReopens(o: Ontology, t: Chunks, priority: Priorities, s: Shape, minDocs: int, minFacts: int)
    returns (key: Key)
    requires IsCandidate(o, s, minDocs, minFacts)
    ensures Hits(o.drops, key, [s])
    ensures Live(t, key) && key.0 in priority ==> Waiting(Requeued(t, o.drops, [s]), priority, key)
  {
    var i :| 0 <= i < |o.drops| && o.drops[i].shape == s && Counts(o.drops[i]);
    key := (o.drops[i].recordKey, o.drops[i].chunkId);
    assert o.drops[i].shape in [s];
    QueueGrowsByReopened(t, priority, o.drops, [s]);
    if Live(t, key) && key.0 in priority {
      assert key in WaitingKeys(Requeued(t, o.drops, [s]), priority);
    }
  }
}

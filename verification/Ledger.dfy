/** The connector ledger of connectors/core/ledger.py as an object over its tables. Each method is one
    transaction (Commit is two) and is proved against the specification functions of the Ledger*
    modules, which carry the properties of whole runs. */
module Ledger {
  import opened Options
  import opened LikePrefix
  import Text
  import C = LedgerChunks
  import Q = LedgerQueue
  import V = LedgerVersions
  import O = LedgerAdoption
  import N = LedgerRequeue
  import F = LedgerFindings
  import R = LedgerReviews

  datatype SaveResult = Saved(diff: C.ChunkDiff) | PrimaryKeyClash

  /** What adopt_shapes does: nothing to adopt, a batch, or a batch id already taken. */
  datatype AdoptResult = NothingToAdopt | Batch(id: string) | BatchTaken

  function AsSet(s: seq<string>): set<string> { set x | x in s }

  lemma OneMore(ids: seq<string>, i: nat, marked: set<string>)
    requires Text.Increasing(ids) && i < |ids|
    ensures |AsSet(ids[..i + 1]) * marked| == |AsSet(ids[..i]) * marked| + if ids[i] in marked then 1 else 0
  {
    forall j | 0 <= j < i ensures ids[j] != ids[i] { Text.IncreasingIsDistinct(ids, j, i); }
    var before, x := AsSet(ids[..i]), ids[i];
    assert x !in ids[..i];
    assert forall y :: y in ids[..i + 1] <==> y in ids[..i] || y == x;
    assert AsSet(ids[..i + 1]) == before + {x};
    AddMarked(before, x, marked);
  }

  lemma AddMarked(s: set<string>, x: string, marked: set<string>)
    requires x !in s
    ensures |(s + {x}) * marked| == |s * marked| + if x in marked then 1 else 0
  {
    if x in marked {
      assert (s + {x}) * marked == (s * marked) + {x};
    } else {
      assert (s + {x}) * marked == s * marked;
    }
  }

  /** sum(1 for x in ids if x in marked) */
  method CountMarked(ids: seq<string>, marked: set<string>) returns (n: nat)
    requires Text.Increasing(ids)
    ensures n == |AsSet(ids) * marked|
  {
    n := 0;
    for i := 0 to |ids|
      invariant n == |AsSet(ids[..i]) * marked|
    {
      OneMore(ids, i, marked);
      if ids[i] in marked {
        n := n + 1;
      }
    }
    assert ids[..|ids|] == ids;
  }

  /** The three executemany stages of save_chunks, over the ids done so far. */
  ghost predicate RowsKept(t: C.Chunks, t': C.Chunks, r: string, incoming: map<string, C.ChunkWrite>, ids: seq<string>)
    requires forall id :: id in ids ==> id in incoming
  {
    t'.Keys == t.Keys && forall key :: key in t ==>
      t'[key] == (if key.0 == r && key.1 in ids then C.Kept(t[key], incoming[key.1]) else t[key])
  }

  ghost predicate RowsAdded(t: C.Chunks, t': C.Chunks, r: string, incoming: map<string, C.ChunkWrite>, ids: seq<string>,
                            adopted: set<string>, now: real)
    requires forall id :: id in ids ==> id in incoming
  {
    && (forall id :: id in ids ==> (r, id) !in t)
    && (forall key :: key in t' <==> key in t || (key.0 == r && key.1 in ids))
    && (forall key :: key in t' ==>
          t'[key] == (if key.0 == r && key.1 in ids then C.Added(incoming[key.1], adopted, now) else t[key]))
  }

  ghost predicate RowsSuperseded(t: C.Chunks, t': C.Chunks, r: string, ids: seq<string>, now: real) {
    t'.Keys == t.Keys && forall key :: key in t ==>
      t'[key] == (if key.0 == r && key.1 in ids then C.Superseded(t[key], now) else t[key])
  }

  /** What the stages work on. */
  ghost predicate Splits(t: C.Chunks, r: string, incoming: map<string, C.ChunkWrite>, kept: seq<string>,
                         added: seq<string>, gone: seq<string>) {
    && (forall id :: id in kept <==> C.Live(t, (r, id)) && id in incoming)
    && (forall id :: id in added <==> id in incoming && !C.Live(t, (r, id)))
    && (forall id :: id in gone <==> C.Live(t, (r, id)) && id !in incoming)
  }

  /** The stages together are the specified save. */
  lemma StagesSave(t: C.Chunks, t1: C.Chunks, t2: C.Chunks, t3: C.Chunks, r: string,
                   incoming: map<string, C.ChunkWrite>, kept: seq<string>, added: seq<string>, gone: seq<string>,
                   adopted: set<string>, now: real)
    requires Splits(t, r, incoming, kept, added, gone)
    requires RowsKept(t, t1, r, incoming, kept) && RowsAdded(t1, t2, r, incoming, added, adopted, now)
    requires RowsSuperseded(t2, t3, r, gone, now)
    ensures C.SavedAs(t, t3, r, incoming, adopted, now)
  {
    forall key | key in t3
      ensures (key in t || (key.0 == r && key.1 in incoming)) &&
        t3[key] == if key.0 == r then C.SavedRow(t, key, incoming, adopted, now) else t[key]
    {
      assert key in t2;
      if key in t1 { assert key in t; }
    }
  }

  lemma ClashesIffNotAddable(t: C.Chunks, t1: C.Chunks, r: string, incoming: map<string, C.ChunkWrite>,
                             kept: seq<string>, added: seq<string>, gone: seq<string>)
    requires Splits(t, r, incoming, kept, added, gone) && t1.Keys == t.Keys
    ensures C.Clashes(t, r, incoming) <==> exists id :: id in added && (r, id) in t1
  {
    if C.Clashes(t, r, incoming) {
      var id :| id in incoming && (r, id) in t && !C.Live(t, (r, id));
      assert id in added && (r, id) in t1;
    }
    if id :| id in added && (r, id) in t1 {
      assert id in incoming && (r, id) in t && !C.Live(t, (r, id));
    }
  }

  /** {item.chunk_id: item for item in writes} */
  method CollectIncoming(writes: seq<C.ChunkWrite>) returns (incoming: map<string, C.ChunkWrite>)
    ensures incoming == C.Incoming(writes)
  {
    incoming := map[];
    for i := 0 to |writes|
      invariant incoming == C.Incoming(writes[..i])
    {
      assert writes[..i + 1][..i] == writes[..i];
      incoming := incoming[writes[i].id := writes[i]];
    }
    assert writes[..|writes|] == writes;
  }

  function DoneBefore(t: C.Chunks, r: string): set<string> {
    set id | id in C.LiveIds(t, r) && t[(r, id)].status == C.Done
  }

  function Adoptable(incoming: map<string, C.ChunkWrite>, adopted: set<string>): set<string> {
    set id | id in incoming && incoming[id].text in adopted
  }

  lemma ReusedSets(t: C.Chunks, r: string, incoming: map<string, C.ChunkWrite>, adopted: set<string>)
    ensures (C.LiveIds(t, r) * incoming.Keys) * DoneBefore(t, r) == C.KeptDone(t, r, incoming)
    ensures (incoming.Keys - C.LiveIds(t, r)) * Adoptable(incoming, adopted) == C.AddedDone(t, r, incoming, adopted)
  {
  }

  function SortedIds(s: set<string>): (ids: seq<string>)
    ensures Text.Increasing(ids) && AsSet(ids) == s && |ids| == |s| && forall id :: id in ids <==> id in s
  {
    Text.Sorted(s)
  }

  /** kept, added and superseded, each sorted. */
  method Partition(t: C.Chunks, r: string, incoming: map<string, C.ChunkWrite>)
    returns (kept: seq<string>, added: seq<string>, gone: seq<string>)
    ensures Text.Increasing(kept) && Text.Increasing(added) && Text.Increasing(gone)
    ensures Splits(t, r, incoming, kept, added, gone)
    ensures AsSet(kept) == C.LiveIds(t, r) * incoming.Keys && |kept| == |C.LiveIds(t, r) * incoming.Keys|
    ensures AsSet(added) == incoming.Keys - C.LiveIds(t, r) && |added| == |incoming.Keys - C.LiveIds(t, r)|
    ensures |gone| == |C.LiveIds(t, r) - incoming.Keys|
  {
    var existing := C.LiveIds(t, r);
    kept := SortedIds(existing * incoming.Keys);
    added := SortedIds(incoming.Keys - existing);
    gone := SortedIds(existing - incoming.Keys);
  }

  /** reused_done: kept chunks that were done, and added ones whose text was adopted. */
  method CountReused(t: C.Chunks, r: string, incoming: map<string, C.ChunkWrite>, adopted: set<string>,
                     kept: seq<string>, added: seq<string>) returns (n: nat)
    requires Text.Increasing(kept) && AsSet(kept) == C.LiveIds(t, r) * incoming.Keys
    requires Text.Increasing(added) && AsSet(added) == incoming.Keys - C.LiveIds(t, r)
    ensures n == |C.KeptDone(t, r, incoming)| + |C.AddedDone(t, r, incoming, adopted)|
  {
    var keptDone := CountMarked(kept, DoneBefore(t, r));
    var addedDone := CountMarked(added, Adoptable(incoming, adopted));
    ReusedSets(t, r, incoming, adopted);
    n := keptDone + addedDone;
  }

  function RecordsOf(t: C.Chunks): set<string> { set key | key in t :: key.0 }

  /** The records a purge selects. */
  function Purged(records: set<string>, prefix: string, unicode: char -> string, foldCase: bool): set<string> {
    set r | r in records && Like(PurgePattern(prefix, unicode), Text.Lower(r), foldCase)
  }

  /** For a prefix whose only capitals are ASCII those are the keys with that prefix up to ASCII case. */
  lemma PurgeSelectsPrefix(records: set<string>, prefix: string, unicode: char -> string, foldCase: bool)
    requires Sane(unicode) && PyLower(prefix, unicode) == Text.Lower(prefix)
    ensures Purged(records, prefix, unicode, foldCase) == set r | r in records && StartsWith(r, prefix, true)
  {
    PurgeIsExactIff(prefix, unicode, foldCase);
  }

  /** A row of the semantic queue: `text` is what the extraction reads. */
  datatype PendingChunk = PendingChunk(recordKey: string, chunkId: string, index: int, text: string,
                                       originalText: string)

  function KeysOf(work: seq<PendingChunk>): seq<C.Key> {
    seq(|work|, i requires 0 <= i < |work| => (work[i].recordKey, work[i].chunkId))
  }

  /** Higher priority first, then the longest committed, then the order in the record. */
  predicate GoesFirst(records: map<string, V.Record>, t: C.Chunks, a: PendingChunk, b: PendingChunk) {
    var x, y := (a.recordKey, a.chunkId), (b.recordKey, b.chunkId);
    && x in t && y in t && a.recordKey in records && b.recordKey in records
    && var p, q := records[a.recordKey].priority, records[b.recordKey].priority;
    && p >= q
    && (p == q ==> t[x].committedAt <= t[y].committedAt)
    && (p == q && t[x].committedAt == t[y].committedAt ==> a.index <= b.index)
  }

  ghost predicate PendingAs(t: C.Chunks, key: C.Key, p: PendingChunk) {
    key in t && p == PendingOf(t, key)
  }

  function PendingOf(t: C.Chunks, key: C.Key): PendingChunk
    requires key in t
  {
    var row := t[key];
    PendingChunk(key.0, key.1, row.index, if row.llmText.Some? then row.llmText.value else row.text, row.text)
  }

  /** The rows handed out for a batch. */
  method RowsFor(t: C.Chunks, batch: seq<C.Key>) returns (work: seq<PendingChunk>)
    requires forall key :: key in batch ==> key in t
    ensures KeysOf(work) == batch && forall k :: 0 <= k < |batch| ==> PendingAs(t, batch[k], work[k])
  {
    work := [];
    for i := 0 to |batch|
      invariant KeysOf(work) == batch[..i]
      invariant forall k :: 0 <= k < i ==> PendingAs(t, batch[k], work[k])
    {
      assert batch[i] in batch;
      var row := t[batch[i]];
      var text := match row.llmText { case Some(s) => s case None => row.text };
      work := work + [PendingChunk(batch[i].0, batch[i].1, row.index, text, row.text)];
      assert KeysOf(work) == KeysOf(work[..i]) + [batch[i]];
      assert batch[..i + 1] == batch[..i] + [batch[i]];
    }
    assert batch[..|batch|] == batch;
  }

  /** What a batch of the queue over the rows of a scope means, row by row. */
  lemma WorkOfBatch(t: C.Chunks, scoped: C.Chunks, records: map<string, V.Record>, priority: Q.Priorities, limit: nat,
                    batch: seq<C.Key>, work: seq<PendingChunk>)
    requires priority == map r | r in records :: records[r].priority
    requires forall key :: key in scoped ==> key in t && t[key] == scoped[key]
    requires Q.IsBatch(scoped, priority, limit, batch) && KeysOf(work) == batch
    requires forall k :: 0 <= k < |batch| ==> PendingAs(t, batch[k], work[k])
    ensures forall i :: 0 <= i < |work| ==> Q.Waiting(t, priority, KeysOf(work)[i])
    ensures forall i, j :: 0 <= i < j < |work| ==> GoesFirst(records, t, work[i], work[j])
  {
    forall i | 0 <= i < |work| ensures Q.Waiting(t, priority, KeysOf(work)[i]) { assert batch[i] in batch; }
    forall i, j | 0 <= i < j < |work| ensures GoesFirst(records, t, work[i], work[j]) {
      assert batch[i] in batch && batch[j] in batch && Q.NoLater(scoped, priority, batch[i], batch[j]);
    }
  }

  lemma WorkIsComplete(scoped: C.Chunks, priority: Q.Priorities, limit: nat, work: seq<PendingChunk>)
    requires Q.IsBatch(scoped, priority, limit, KeysOf(work))
    requires |work| < limit || limit == |Q.WaitingKeys(scoped, priority)|
    ensures forall key :: Q.Waiting(scoped, priority, key) ==>
      exists i :: 0 <= i < |work| && work[i].recordKey == key.0 && work[i].chunkId == key.1
  {
    Q.ShortBatchIsAll(scoped, priority, limit, KeysOf(work));
    forall key | Q.Waiting(scoped, priority, key)
      ensures exists i :: 0 <= i < |work| && work[i].recordKey == key.0 && work[i].chunkId == key.1
    {
      var i :| 0 <= i < |work| && KeysOf(work)[i] == key;
      assert work[i].recordKey == key.0;
    }
  }

  /** record_edges; its primary key is the whole row. */
  datatype Edge = Edge(recordKey: string, relation: string, fromUid: string, toUid: string)

  /** A candidate's counts are those of the refusals behind it and of their documents. */
  ghost predicate Evidenced(drops: seq<O.Drop>, c: O.Candidate) {
    var witnesses := O.Witnesses(drops, c.shape);
    c.facts == |witnesses| && c.docs == |set i | i in witnesses :: drops[i].recordKey|
  }

  /** Chunks of a record committed again since it was inserted go before those of one committed once: whoever is
      handed a chunk of the latter was handed every waiting chunk of the former first. */
  lemma RecommittedGoesFirst(events: seq<V.Event>, t: C.Chunks, priority: Q.Priorities, limit: nat, batch: seq<C.Key>,
                             a: C.Key, b: C.Key)
    requires V.CommitsSinceInsert(events, a.0) >= 2 && V.CommitsSinceInsert(events, b.0) == 1
    requires var records := V.Run(events).records; priority == map r | r in records :: records[r].priority
    requires Q.IsBatch(t, priority, limit, batch) && b in batch && Q.Waiting(t, priority, a)
    ensures exists i, j :: 0 <= i < j < |batch| && batch[i] == a && batch[j] == b
  {
    V.PriorityCountsCommits(events, a.0);
    V.PriorityCountsCommits(events, b.0);
    assert priority[a.0] > priority[b.0] && !Q.NoLater(t, priority, b, a);
    var j :| 0 <= j < |batch| && batch[j] == b;
    assert a in batch;
    var i :| 0 <= i < |batch| && batch[i] == a;
    assert forall m, n :: 0 <= m < n < |batch| ==> Q.NoLater(t, priority, batch[m], batch[n]);
  }

  class ConnectorLedger {
    var chunks: C.Chunks
    var records: map<string, V.Record>
    var versions: V.Versions
    var ontology: O.Ontology
    var findings: map<string, F.Finding>
    var evidence: map<(string, string, string), F.Evidence>
    var reviews: map<R.RowId, R.Review>
    var lastReview: nat
    var rejections: map<string, R.Rejection>
    var candidates: map<R.RowId, R.Candidate>
    var lastCandidate: nat
    var edges: set<Edge>

    function Book(): V.Book reads this { V.Book(records, versions) }
    function Desk(): F.Desk reads this { F.Desk(findings, evidence) }
    function Reviews(): R.Queue reads this { R.Queue(reviews, lastReview, rejections) }
    function Links(): R.Links reads this { R.Links(candidates, lastCandidate) }
    function Priorities(): Q.Priorities reads this { map r | r in records :: records[r].priority }

    constructor ()
      ensures chunks == map[] && Book() == V.Run([])
      ensures ontology == O.Ontology(map[], map[], map[], [])
      ensures Desk() == F.Desk(map[], map[]) && Reviews() == R.EMPTY && Links() == R.Links(map[], 0) && edges == {}
    {
      chunks, records, versions := map[], map[], map[];
      ontology := O.Ontology(map[], map[], map[], []);
      findings, evidence := map[], map[];
      reviews, lastReview, rejections := map[], 0, map[];
      candidates, lastCandidate, edges := map[], 0, {};
    }

    // -------------------------------------------------------------- chunks

    method UpdateRow(r: string, w: C.ChunkWrite)
      requires (r, w.id) in chunks
      modifies this`chunks
      ensures chunks == old(chunks)[(r, w.id) := C.Kept(old(chunks)[(r, w.id)], w)]
    {
      var row := chunks[(r, w.id)];
      var status := if row.status == C.Done || w.status == C.Done then C.Done else C.Pending;
      row := row.(index := w.index);
      row := row.(status := status, llmText := w.llmText, resolution := w.resolution, reason := w.reason);
      chunks := chunks[(r, w.id) := row];
    }

    method UpdateKept(r: string, incoming: map<string, C.ChunkWrite>, ids: seq<string>)
      requires forall id :: id in ids ==> id in incoming && incoming[id].id == id && (r, id) in chunks
      requires Text.Increasing(ids)
      modifies this`chunks
      ensures RowsKept(old(chunks), chunks, r, incoming, ids)
    {
      for i := 0 to |ids|
        invariant RowsKept(old(chunks), chunks, r, incoming, ids[..i])
      {
        forall j | 0 <= j < i ensures ids[j] != ids[i] { Text.IncreasingIsDistinct(ids, j, i); }
        assert ids[i] !in ids[..i];
        assert forall x :: x in ids[..i + 1] <==> x in ids[..i] || x == ids[i];
        UpdateRow(r, incoming[ids[i]]);
      }
      assert ids[..|ids|] == ids;
    }

    /** False at the first id that is already there: the insert raises, and the caller rolls back. */
    method InsertAdded(r: string, incoming: map<string, C.ChunkWrite>, ids: seq<string>, adopted: set<string>,
                       now: real)
      returns (ok: bool)
      requires forall id :: id in ids ==> id in incoming
      requires Text.Increasing(ids)
      modifies this`chunks
      ensures ok <==> !exists id :: id in ids && (r, id) in old(chunks)
      ensures ok ==> RowsAdded(old(chunks), chunks, r, incoming, ids, adopted, now)
    {
      for i := 0 to |ids|
        invariant RowsAdded(old(chunks), chunks, r, incoming, ids[..i], adopted, now)
      {
        var id, w := ids[i], incoming[ids[i]];
        forall j | 0 <= j < i ensures ids[j] != id { Text.IncreasingIsDistinct(ids, j, i); }
        assert id !in ids[..i];
        assert forall x :: x in ids[..i + 1] <==> x in ids[..i] || x == id;
        if (r, id) in chunks {
          assert id in ids && (r, id) in old(chunks);
          return false;
        }
        var status := if w.text in adopted then C.Done else w.status;
        chunks := chunks[(r, id) := C.Chunk(w.index, w.text, status, w.llmText, w.resolution, w.reason, now, None)];
      }
      assert ids[..|ids|] == ids;
      ok := true;
    }

    method SupersedeGone(r: string, ids: seq<string>, now: real)
      requires forall id :: id in ids ==> (r, id) in chunks
      modifies this`chunks
      ensures RowsSuperseded(old(chunks), chunks, r, ids, now)
    {
      for i := 0 to |ids|
        invariant RowsSuperseded(old(chunks), chunks, r, ids[..i], now)
      {
        assert forall x :: x in ids[..i + 1] <==> x in ids[..i] || x == ids[i];
        chunks := chunks[(r, ids[i]) := chunks[(r, ids[i])].(supersededAt := Some(now))];
      }
      assert ids[..|ids|] == ids;
    }

    /** The content-keyed diff: all of it, or nothing when an incoming id names a superseded row. */
    method SaveChunks(r: string, writes: seq<C.ChunkWrite>, adoptFrom: Option<string>, now: real)
      returns (result: SaveResult)
      modifies this`chunks
      ensures result.PrimaryKeyClash? <==> C.Clashes(old(chunks), r, C.Incoming(writes))
      ensures result.PrimaryKeyClash? ==> chunks == old(chunks)
      ensures chunks == C.Apply(old(chunks), C.Save(r, writes, adoptFrom, now))
      ensures result.Saved? ==> (
        var adopted := C.AdoptedTexts(old(chunks), adoptFrom);
        && C.SavedAs(old(chunks), chunks, r, C.Incoming(writes), adopted, now)
        && C.DiffOk(old(chunks), r, C.Incoming(writes), adopted, result.diff))
    {
      var before := chunks;
      var incoming := CollectIncoming(writes);
      var adopted := C.AdoptedTexts(chunks, adoptFrom);
      var kept, added, superseded := Partition(chunks, r, incoming);
      UpdateKept(r, incoming, kept);
      ghost var updated := chunks;
      var ok := InsertAdded(r, incoming, added, adopted, now);
      ClashesIffNotAddable(before, updated, r, incoming, kept, added, superseded);
      if !ok {
        chunks := before;
        return PrimaryKeyClash;
      }
      ghost var inserted := chunks;
      SupersedeGone(r, superseded, now);
      StagesSave(before, updated, inserted, chunks, r, incoming, kept, added, superseded, adopted, now);
      C.SavedIsUnique(before, chunks, C.SaveTable(before, r, incoming, adopted, now), r, incoming, adopted, now);
      var reused := CountReused(before, r, incoming, adopted, kept, added);
      result := Saved(C.ChunkDiff(|kept|, |added|, |superseded|, reused));
    }

    method CommitChunk(r: string, id: string, status: C.Status, now: real)
      modifies this`chunks
      ensures chunks == C.Committed(old(chunks), (r, id), status, now)
      ensures (r, id) in old(chunks) ==>
        var was, row := old(chunks)[(r, id)], chunks[(r, id)];
        && row.status == status && row.committedAt == now
        && row == was.(status := row.status, committedAt := row.committedAt)
    {
      if (r, id) in chunks {
        var row := chunks[(r, id)];
        row := row.(status := status);
        row := row.(committedAt := now);
        chunks := chunks[(r, id) := row];
      }
    }

    /** Rows a prefix query may return; an empty prefix is no filter. */
    function Scoped(recordPrefix: Option<string>, foldCase: bool): C.Chunks
      reads this
    {
      map key | key in chunks && InScope(key, recordPrefix, foldCase) :: chunks[key]
    }

    static predicate InScope(key: C.Key, recordPrefix: Option<string>, foldCase: bool) {
      recordPrefix.Some? && recordPrefix.value != "" ==> F.Under(key.0, recordPrefix.value, foldCase)
    }

    /** What LIMIT allows of n rows: SQLite takes a negative one for none. */
    static function Allowed(limit: int, n: nat): nat { if limit < 0 then n else limit }

    /** None is the error Postgres raises for a negative limit; SQLite is the engine whose LIKE folds case. */
    method PendingChunks(limit: int, recordPrefix: Option<string>, foldCase: bool)
      returns (result: Option<seq<PendingChunk>>)
      ensures result.None? <==> limit < 0 && !foldCase
      ensures result.Some? ==> (
        var t, work := Scoped(recordPrefix, foldCase), result.value;
        && Q.IsBatch(t, Priorities(), Allowed(limit, |Q.WaitingKeys(t, Priorities())|), KeysOf(work))
        && forall i :: 0 <= i < |work| ==>
             Q.Waiting(chunks, Priorities(), KeysOf(work)[i]) && PendingAs(chunks, KeysOf(work)[i], work[i]))
      ensures result.Some? ==> forall i :: 0 <= i < |result.value| ==>
        var item := result.value[i];
        var key := (item.recordKey, item.chunkId);
        && key in chunks && key.0 in records
        && chunks[key].status == C.Pending && chunks[key].supersededAt.None?
        && item.index == chunks[key].index && item.originalText == chunks[key].text
        && item.text == if chunks[key].llmText.Some? then chunks[key].llmText.value else chunks[key].text
      ensures result.Some? ==> forall i, j :: 0 <= i < j < |result.value| ==>
        var a, b := result.value[i], result.value[j];
        && a.recordKey in records && b.recordKey in records
        && var p, q := records[a.recordKey].priority, records[b.recordKey].priority;
        && (a.recordKey, a.chunkId) in chunks && (b.recordKey, b.chunkId) in chunks
        && var s, t := chunks[(a.recordKey, a.chunkId)].committedAt, chunks[(b.recordKey, b.chunkId)].committedAt;
        p > q || (p == q && (s < t || (s == t && a.index <= b.index)))
      ensures result.Some? && (limit < 0 || |result.value| < limit) ==> forall key ::
        key in chunks && chunks[key].status == C.Pending && chunks[key].supersededAt.None? && key.0 in records &&
        InScope(key, recordPrefix, foldCase) ==>
          exists i :: 0 <= i < |result.value| && result.value[i].recordKey == key.0 && result.value[i].chunkId == key.1
    {
      if limit < 0 && !foldCase {
        return None;
      }
      var t := Scoped(recordPrefix, foldCase);
      var batch := Q.SelectPending(t, Priorities(), Allowed(limit, |Q.WaitingKeys(t, Priorities())|));
      var work := RowsFor(chunks, batch);
      WorkOfBatch(chunks, t, records, Priorities(), Allowed(limit, |Q.WaitingKeys(t, Priorities())|), batch, work);
      if limit < 0 || |work| < limit {
        WorkIsComplete(t, Priorities(), Allowed(limit, |Q.WaitingKeys(t, Priorities())|), work);
        assert forall key :: key in chunks && InScope(key, recordPrefix, foldCase) ==>
          key in t && t[key] == chunks[key];
      }
      result := Some(work);
    }

    method RecordFullyProcessed(r: string) returns (done: bool)
      ensures done <==> Q.FullyProcessed(chunks, r)
    {
      var unfinished := set key |
        key in chunks && key.0 == r && chunks[key].status != C.Done && chunks[key].supersededAt.None?;
      assert forall key ::
        key in chunks && key.0 == r && chunks[key].status != C.Done && chunks[key].supersededAt.None? ==>
        key in unfinished;
      done := |unfinished| == 0;
    }

    // -------------------------------------------------------------- records and versions

    method RecordVersion(r: string, hash: string) returns (version: int)
      modifies this`versions
      ensures version == V.VersionFor(old(versions), r, hash)
      ensures versions == V.WithVersion(old(versions), r, hash)
    {
      var rows := V.Rows(versions, r);
      assert (r, 0) in versions ==> (r, 0) in rows;
      var latest := 0;
      if rows != {} {
        V.TopExists(rows);
        var top :| top in rows && V.IsTop(rows, top);
        latest := top.1;
        assert top == (r, latest) && V.LatestNumber(versions, r) == latest;
        if versions[top] == hash {
          assert versions == versions[(r, latest) := hash];
          return latest;
        }
      }
      version := latest + 1;
      assert (r, version) !in rows;
      if (r, version) !in versions {
        versions := versions[(r, version) := hash];
      }
    }

    /** First transaction of a commit: the record row. */
    method UpsertRecord(r: string, hash: string, uid: Option<string>, status: C.Status, now: real)
      modifies this`records
      ensures records == V.Upserted(old(records), r, hash, uid, status, now)
      ensures r in records
      ensures var row := records[r];
        && row.hash == hash && row.uid == uid && row.status == status && row.updatedAt == now
        && row.updates == (if r in old(records) then old(records)[r].updates + 1 else 0)
        && row.priority == (if r !in old(records) then 100
                            else if old(records)[r].updates >= 100 then 300
                            else 200 + old(records)[r].updates)
    {
      if r !in records {
        records := records[r := V.Record(hash, uid, status, 100, 0, now)];
      } else {
        var row := records[r];
        var bumped := 200 + row.updates;
        row := row.(hash := hash, uid := uid, status := status, updates := row.updates + 1, updatedAt := now);
        row := row.(priority := if bumped < 300 then bumped else 300);
        records := records[r := row];
      }
    }

    method Commit(r: string, hash: string, uid: Option<string>, status: C.Status, now: real)
      modifies this`records, this`versions
      ensures Book() == V.Apply(V.Apply(old(Book()), V.Upsert(r, hash, uid, status, now)), V.Version(r, hash))
    {
      UpsertRecord(r, hash, uid, status, now);
      var _ := RecordVersion(r, hash);
    }

    /** INSERT ... ON CONFLICT DO NOTHING, row by row. */
    method RecordEdgesBatch(r: string, refs: seq<(string, string, string)>)
      modifies this`edges
      ensures edges == old(edges) + set e | e in refs :: Edge(r, e.0, e.1, e.2)
    {
      for i := 0 to |refs|
        invariant edges == old(edges) + set e | e in refs[..i] :: Edge(r, e.0, e.1, e.2)
      {
        assert forall e :: e in refs[..i + 1] <==> e in refs[..i] || e == refs[i];
        edges := edges + {Edge(r, refs[i].0, refs[i].1, refs[i].2)};
      }
      assert refs[..|refs|] == refs;
    }

    method CommitDelete(r: string)
      modifies this`chunks, this`records, this`edges
      ensures edges == set e | e in old(edges) && e.recordKey != r
      ensures chunks == C.WithoutRecord(old(chunks), r)
      ensures Book() == V.Apply(old(Book()), V.Delete(r))
    {
      chunks := map key | key in chunks && key.0 != r :: chunks[key];
      edges := edges - set e | e in edges && e.recordKey == r;
      records := records - {r};
    }

    /** purge_ledger_prefix; None is the ValueError for an empty prefix. `present` says whether there is a
        ledger with a record table at all. */
    method PurgePrefix(prefix: string, present: bool, unicode: char -> string, foldCase: bool)
      returns (removed: Option<nat>)
      modifies this`chunks, this`records
      ensures removed.None? <==> prefix == ""
      ensures removed.None? || !present ==> chunks == old(chunks) && records == old(records)
      ensures removed.Some? && !present ==> removed.value == 0
      ensures removed.Some? && present ==>
        var matches := Purged(old(records).Keys, prefix, unicode, foldCase);
        removed.value == |matches| && records == old(records) - matches
      ensures removed.Some? && present ==>
        chunks == C.Apply(old(chunks), C.Purge(Purged(RecordsOf(old(chunks)), prefix, unicode, foldCase)))
    {
      if prefix == "" {
        return None;
      }
      if !present {
        return Some(0);
      }
      var pattern := PurgePattern(prefix, unicode);
      chunks := map key | key in chunks && !Like(pattern, Text.Lower(key.0), foldCase) :: chunks[key];
      var doomed := set r | r in records && Like(pattern, Text.Lower(r), foldCase);
      assert doomed == Purged(records.Keys, prefix, unicode, foldCase);
      records := records - doomed;
      removed := Some(|doomed|);
    }

    // -------------------------------------------------------------- ontology

    /** Each candidate once, with its counts, widest evidence first. */
    method AdoptionCandidates(minDocs: int, minFacts: int) returns (rows: seq<O.Candidate>)
      ensures forall c :: c in rows <==>
        O.IsCandidate(ontology, c.shape, minDocs, minFacts) && c == O.CandidateOf(ontology, c.shape)
      ensures O.Ranked(rows) && |rows| == |set c | c in rows :: c.shape|
      ensures forall c :: c in rows ==>
        var witnesses := O.Witnesses(ontology.drops, c.shape);
        c.facts == |witnesses| && c.docs == |set i | i in witnesses :: ontology.drops[i].recordKey|
      ensures forall i, j :: 0 <= i < j < |rows| ==>
        rows[i].docs >= rows[j].docs && (rows[i].docs == rows[j].docs ==> rows[i].facts >= rows[j].facts)
    {
      var shapes := O.CollectCandidates(ontology, minDocs, minFacts);
      rows := O.Rank(ontology, shapes);
      forall c | c in rows ensures Evidenced(ontology.drops, c) {
        O.FactsAreWitnesses(ontology.drops, c.shape);
        O.DocumentsOfWitnesses(ontology.drops, c.shape);
      }
      forall s | s in shapes ensures s in set c | c in rows :: c.shape { assert O.CandidateOf(ontology, s) in rows; }
      assert shapes == set c | c in rows :: c.shape;
    }

    /** `batch` is the uuid the call drew. */
    method AdoptShapes(shapes: seq<O.Shape>, batch: string) returns (result: AdoptResult)
      modifies this`ontology
      ensures result.NothingToAdopt? <==> shapes == []
      ensures result.BatchTaken? <==> shapes != [] && batch in old(ontology).adoptions
      ensures result.Batch? ==> result.id == batch && ontology == O.Adopted(old(ontology), shapes, batch)
      ensures !result.Batch? ==> ontology == old(ontology)
      ensures result.Batch? ==>
        && batch in ontology.adoptions && ontology.adoptions[batch].shapes == shapes
        && !ontology.adoptions[batch].undone
        && (forall s :: s in ontology.axioms <==> s in old(ontology).axioms || s in shapes)
        && (forall s :: s in old(ontology).axioms ==> ontology.axioms[s] == old(ontology).axioms[s])
        && (forall s :: s in shapes && s !in old(ontology).axioms ==> ontology.axioms[s].adoptedBatch == Some(batch))
    {
      if shapes == [] {
        return NothingToAdopt;
      }
      var row := O.Axiom(O.ADOPTED_COLUMNS, Some(batch));
      var axioms := ontology.axioms;
      for i := 0 to |shapes|
        invariant axioms == O.Inserted(ontology.axioms, shapes[..i], row)
      {
        assert forall s :: s in shapes[..i + 1] <==> s in shapes[..i] || s == shapes[i];
        if shapes[i] !in axioms {
          axioms := axioms[shapes[i] := row];
        }
      }
      assert shapes[..|shapes|] == shapes;
      if batch in ontology.adoptions {
        return BatchTaken;
      }
      ontology := ontology.(axioms := axioms, adoptions := ontology.adoptions[batch := O.Adoption(shapes, false)]);
      result := Batch(batch);
    }

    method Unadopt(batch: string) returns (shapes: seq<O.Shape>)
      modifies this`ontology
      ensures ontology == O.Unadopted(old(ontology), batch)
      ensures shapes == O.UndoneShapes(old(ontology), batch)
      ensures batch in old(ontology).adoptions && !old(ontology).adoptions[batch].undone ==>
        && shapes == old(ontology).adoptions[batch].shapes
        && batch in ontology.adoptions && ontology.adoptions[batch].undone
        && (forall s :: s in ontology.axioms <==>
              s in old(ontology).axioms && old(ontology).axioms[s].adoptedBatch != Some(batch))
        && (forall s :: s in ontology.axioms ==> ontology.axioms[s] == old(ontology).axioms[s])
    {
      if batch !in ontology.adoptions || ontology.adoptions[batch].undone {
        return [];
      }
      shapes := ontology.adoptions[batch].shapes;
      var axioms := map s |
        s in ontology.axioms && ontology.axioms[s].adoptedBatch != Some(batch) :: ontology.axioms[s];
      ontology := ontology.(axioms := axioms);
      ontology := ontology.(adoptions := ontology.adoptions[batch := ontology.adoptions[batch].(undone := true)]);
    }

    /** Returns the number of rows updated. */
    method RequeueChunksForShapes(shapes: seq<O.Shape>) returns (count: nat)
      modifies this`chunks
      ensures chunks == C.Apply(old(chunks), C.Requeue(N.Reopened(old(chunks), ontology.drops, shapes)))
      ensures count == |N.Reopened(old(chunks), ontology.drops, shapes)|
      ensures forall key :: key in old(chunks) ==>
        key in chunks && chunks[key].(status := C.Pending) == old(chunks)[key].(status := C.Pending) &&
        var refused := exists i ::
          && 0 <= i < |ontology.drops| && ontology.drops[i].recordKey == key.0
          && ontology.drops[i].chunkId == key.1 && ontology.drops[i].shape in shapes;
        chunks[key].status ==
          if refused && old(chunks)[key].supersededAt.None? then C.Pending else old(chunks)[key].status
    {
      if shapes == [] {
        assert N.Reopened(chunks, ontology.drops, shapes) == {};
        return 0;
      }
      var hit := set key | key in chunks && chunks[key].supersededAt.None? && N.Hits(ontology.drops, key, shapes);
      assert hit == N.Reopened(chunks, ontology.drops, shapes);
      chunks := map key | key in chunks :: if key in hit then chunks[key].(status := C.Pending) else chunks[key];
      count := |hit|;
    }

    // -------------------------------------------------------------- findings

    method RecordIngestionAssessments(r: string, c: string, items: seq<F.Assessment>, now: real)
      returns (written: seq<string>)
      modifies this`findings, this`evidence
      ensures Desk() == F.Assessed(old(Desk()), r, c, items, now)
      ensures written == F.Written(r, items)
      ensures F.OpenAt(Desk(), r, c) == AsSet(written)
    {
      var openHere := set key | key in findings && F.LocatedAt(findings[key], r, c) && findings[key].status == F.Open;
      findings := map key | key in findings ::
        if key in openHere
        then findings[key].(status := F.Stale, staleAt := Some(now), staleReason := Some(F.STALE_REASON),
                            updatedAt := now)
        else findings[key];
      ghost var retired := Desk();
      written := [];
      for i := 0 to |items|
        invariant Desk() == F.FlaggedAll(retired, r, c, items[..i], now)
        invariant written == F.Written(r, items[..i])
      {
        assert items[..i + 1][..i] == items[..i];
        var item := items[i];
        if item.shouldFlag {
          var key := F.FindingKey(r, item);
          var created := if key in findings then findings[key].createdAt else now;
          var action := if item.action == "" then "review" else item.action;
          var severity := if item.severity == "" then "warning" else item.severity;
          var title := if item.title == "" then "Evidence requires review" else item.title;
          var confidence := if item.confidence == 0.0 then 0.5 else item.confidence;
          findings := findings[key :=
            F.Finding(r, c, "llm_" + action, severity, F.Open, title, item.summary, item.reasoning,
                                                confidence, item.properties, created, now, None, None)];
          evidence := evidence[(key, r, F.ROLE) := F.Evidence(c, item.evidence)];
          written := written + [key];
        }
      }
      assert items[..|items|] == items;
      F.OpenAreWritten(old(Desk()), r, c, items, now);
    }

    method DeleteFindingsWithPrefix(recordPrefix: string, foldCase: bool) returns (keys: set<string>)
      modifies this`findings, this`evidence
      ensures Desk() == F.Deleted(old(Desk()), recordPrefix, foldCase)
      ensures keys == F.Located(old(Desk()), recordPrefix, foldCase) == old(findings).Keys - findings.Keys
    {
      keys := set key | key in findings && F.Under(findings[key].recordKey, recordPrefix, foldCase);
      if keys != {} {
        evidence := map e | e in evidence && !F.Under(e.1, recordPrefix, foldCase) :: evidence[e];
        findings := findings - keys;
      }
    }

    // -------------------------------------------------------------- reviews and link candidates

    method CreateReview(kind: string, payload: string, identity: Option<string>, now: real)
      returns (id: Option<R.RowId>)
      modifies this`reviews, this`lastReview
      ensures Reviews() == R.Created(old(Reviews()), kind, payload, identity, now)
      ensures id.None? <==> R.Refuses(old(Reviews()), identity)
      ensures id.Some? ==> id.value == R.RowId(lastReview) && R.CanDecide(Reviews(), id.value)
      ensures id.Some? ==>
        && lastReview == old(lastReview) + 1
        && var row := reviews[id.value];
        && row.kind == kind && row.payload == payload && row.identity == identity && row.createdAt == now
        && row.state == R.Pending && row.decidedBy.None? && row.decidedAt.None?
    {
      if identity.Some? && identity.value in rejections {
        return None;
      }
      lastReview := lastReview + 1;
      reviews := reviews[R.RowId(lastReview) := R.Review(kind, payload, identity, R.Pending, None, None, now)];
      id := Some(R.RowId(lastReview));
    }

    method ApproveReview(id: R.RowId, who: string, now: real) returns (row: Option<R.Review>)
      modifies this`reviews
      ensures Reviews() == R.Decided(old(Reviews()), id, true, who, now)
      ensures row == if R.CanDecide(old(Reviews()), id) then Some(reviews[id]) else None
      ensures row.Some? <==> id in old(reviews) && old(reviews)[id].state == R.Pending
      ensures row.Some? ==>
        && row.value.state == R.Approved && row.value.decidedBy == Some(who) && row.value.decidedAt == Some(now)
        && row.value.kind == old(reviews)[id].kind && row.value.payload == old(reviews)[id].payload
    {
      if id !in reviews || reviews[id].state != R.Pending {
        return None;
      }
      reviews := reviews[id := reviews[id].(state := R.Approved, decidedBy := Some(who), decidedAt := Some(now))];
      row := Some(reviews[id]);
    }

    method RejectReview(id: R.RowId, who: string, now: real) returns (row: Option<R.Review>)
      modifies this`reviews, this`rejections
      ensures Reviews() == R.Decided(old(Reviews()), id, false, who, now)
      ensures row == if R.CanDecide(old(Reviews()), id) then Some(reviews[id]) else None
      ensures row.Some? <==> id in old(reviews) && old(reviews)[id].state == R.Pending
      ensures row.Some? ==>
        && row.value.state == R.Rejected && row.value.decidedBy == Some(who) && row.value.decidedAt == Some(now)
        && row.value.kind == old(reviews)[id].kind && row.value.payload == old(reviews)[id].payload
        && (row.value.identity.Some? ==>
              row.value.identity.value in rejections && rejections[row.value.identity.value].reviewId == id)
    {
      if id !in reviews || reviews[id].state != R.Pending {
        return None;
      }
      reviews := reviews[id := reviews[id].(state := R.Rejected, decidedBy := Some(who), decidedAt := Some(now))];
      var review := reviews[id];
      if review.identity.Some? {
        rejections := rejections[review.identity.value := R.Rejection(review.kind, id, now)];
      }
      row := Some(review);
    }

    method CreateLinkCandidate(triple: R.Triple, rule: string, confidence: real, now: real) returns (id: R.RowId)
      modifies this`candidates, this`lastCandidate
      ensures Links() == R.Proposed(old(Links()), triple, rule, confidence, now)
      ensures id in R.RowsOf(Links(), triple)
      ensures id in candidates && candidates[id].triple == triple
      ensures id !in old(candidates) ==>
        && candidates[id].rule == rule && candidates[id].confidence == confidence && candidates[id].createdAt == now
        && candidates[id].state == R.Pending && candidates[id].decidedAt.None?
    {
      var same := set other | other in candidates && candidates[other].triple == triple;
      assert same == R.RowsOf(Links(), triple);
      if same == {} {
        lastCandidate := lastCandidate + 1;
        candidates := candidates[R.RowId(lastCandidate) := R.Candidate(triple, confidence, rule, R.Pending, now, None)];
        same := {R.RowId(lastCandidate)};
      }
      id :| id in same;
    }

    method ApproveLinkCandidate(id: R.RowId, now: real) returns (row: Option<R.Candidate>)
      modifies this`candidates
      ensures Links() == R.DecidedLink(old(Links()), id, true, now)
      ensures row == if R.CanDecideLink(old(Links()), id) then Some(candidates[id]) else None
      ensures row.Some? <==> id in old(candidates) && old(candidates)[id].state == R.Pending
      ensures row.Some? ==>
        && row.value.state == R.Approved && row.value.decidedAt == Some(now)
        && row.value.triple == old(candidates)[id].triple && row.value.rule == old(candidates)[id].rule
    {
      if id !in candidates || candidates[id].state != R.Pending {
        return None;
      }
      candidates := candidates[id := candidates[id].(state := R.Approved, decidedAt := Some(now))];
      row := Some(candidates[id]);
    }

    method RejectLinkCandidate(id: R.RowId, now: real) returns (row: Option<R.Candidate>)
      modifies this`candidates
      ensures Links() == R.DecidedLink(old(Links()), id, false, now)
      ensures row == if R.CanDecideLink(old(Links()), id) then Some(candidates[id]) else None
      ensures row.Some? <==> id in old(candidates) && old(candidates)[id].state == R.Pending
      ensures row.Some? ==>
        && row.value.state == R.Rejected && row.value.decidedAt == Some(now)
        && row.value.triple == old(candidates)[id].triple && row.value.rule == old(candidates)[id].rule
    {
      if id !in candidates || candidates[id].state != R.Pending {
        return None;
      }
      candidates := candidates[id := candidates[id].(state := R.Rejected, decidedAt := Some(now))];
      row := Some(candidates[id]);
    }
  }
}

/** The chunk table of connectors/core/ledger.py: the content-keyed diff of save_chunks with soft
    supersession. Rows are keyed by (record_key, chunk_id). */
module LedgerChunks {
  import opened Options

  datatype Status = Pending | Done | NotApplicable

  datatype Chunk = Chunk(
    index: int, text: string, status: Status, llmText: Option<string>,
    resolution: string, reason: Option<string>, committedAt: real, supersededAt: Option<real>)

  type Key = (string, string)
  type Chunks = map<Key, Chunk>

  /** One incoming chunk with its deterministic-pass disposition. */
  datatype ChunkWrite = ChunkWrite(
    id: string, index: int, text: string, status: Status, llmText: Option<string>,
    resolution: string, reason: Option<string>)

  /** What one save changed. */
  datatype ChunkDiff = ChunkDiff(kept: nat, added: nat, superseded: nat, reusedDone: nat)

  predicate Live(t: Chunks, key: Key) { key in t && t[key].supersededAt.None? }

  function Ids(t: Chunks, r: string): (ids: set<string>)
    ensures forall id :: id in ids <==> (r, id) in t
  {
    var ids := set key | key in t && key.0 == r :: key.1;
    assert forall id :: (r, id) in t ==> (r, id).1 in ids;
    ids
  }

  function LiveIds(t: Chunks, r: string): (ids: set<string>)
    ensures forall id :: id in ids <==> Live(t, (r, id))
  {
    set id | id in Ids(t, r) && Live(t, (r, id))
  }

  /** A repeated id keeps its last write. */
  function Incoming(writes: seq<ChunkWrite>): (m: map<string, ChunkWrite>)
    ensures forall id :: id in m ==> m[id].id == id
  {
    if writes == [] then map[]
    else var last := writes[|writes| - 1]; Incoming(writes[..|writes| - 1])[last.id := last]
  }

  /** Texts already extracted under the predecessor of a moved record. */
  function AdoptedTexts(t: Chunks, adoptFrom: Option<string>): set<string> {
    if adoptFrom.Some? && adoptFrom.value != ""
    then set key | key in t && key.0 == adoptFrom.value && Live(t, key) && t[key].status == Done :: t[key].text
    else {}
  }

  /** An incoming id that names a superseded row: the insert violates the primary key. */
  predicate Clashes(t: Chunks, r: string, incoming: map<string, ChunkWrite>) {
    exists id :: id in incoming && (r, id) in t && !Live(t, (r, id))
  }

  function Kept(row: Chunk, w: ChunkWrite): Chunk {
    row.(index := w.index, status := if row.status == Done || w.status == Done then Done else Pending,
         llmText := w.llmText, resolution := w.resolution, reason := w.reason)
  }

  function Added(w: ChunkWrite, adopted: set<string>, now: real): Chunk {
    Chunk(w.index, w.text, if w.text in adopted then Done else w.status, w.llmText, w.resolution, w.reason, now, None)
  }

  function Superseded(row: Chunk, now: real): Chunk { row.(supersededAt := Some(now)) }

  /** The row of this record after a successful save. */
  function SavedRow(t: Chunks, key: Key, incoming: map<string, ChunkWrite>, adopted: set<string>, now: real): Chunk
    requires key in t || key.1 in incoming
  {
    if key !in t then Added(incoming[key.1], adopted, now)
    else if !Live(t, key) then t[key]
    else if key.1 in incoming then Kept(t[key], incoming[key.1])
    else Superseded(t[key], now)
  }

  ghost predicate SavedAs(t: Chunks, t': Chunks, r: string, incoming: map<string, ChunkWrite>, adopted: set<string>,
                          now: real) {
    && (forall key :: key in t' <==> key in t || (key.0 == r && key.1 in incoming))
    && (forall key :: key in t' ==>
          t'[key] == if key.0 == r then SavedRow(t, key, incoming, adopted, now) else t[key])
  }

  function KeptDone(t: Chunks, r: string, incoming: map<string, ChunkWrite>): set<string> {
    set id | id in LiveIds(t, r) && id in incoming && t[(r, id)].status == Done
  }

  function AddedDone(t: Chunks, r: string, incoming: map<string, ChunkWrite>, adopted: set<string>): set<string> {
    set id | id in incoming && id !in LiveIds(t, r) && incoming[id].text in adopted
  }

  function DoneAmong(t: Chunks, r: string, ids: set<string>): set<string> {
    set id | id in ids && (r, id) in t && t[(r, id)].status == Done
  }

  ghost predicate DiffOk(t: Chunks, r: string, incoming: map<string, ChunkWrite>, adopted: set<string>, d: ChunkDiff) {
    var live := LiveIds(t, r);
    && d.kept == |live * incoming.Keys|
    && d.added == |incoming.Keys - live|
    && d.superseded == |live - incoming.Keys|
    && d.reusedDone == |KeptDone(t, r, incoming)| + |AddedDone(t, r, incoming, adopted)|
  }

  // ---------------------------------------------------------------- one save

  lemma SplitSize(a: set<string>, b: set<string>)
    ensures |a * b| + |a - b| == |a|
  {
    assert a == (a * b) + (a - b);
  }

  lemma SaveIds(t: Chunks, t': Chunks, r: string, incoming: map<string, ChunkWrite>, adopted: set<string>, now: real)
    requires !Clashes(t, r, incoming) && SavedAs(t, t', r, incoming, adopted, now)
    ensures LiveIds(t', r) == incoming.Keys && Ids(t', r) == Ids(t, r) + incoming.Keys
  {
    forall id ensures id in LiveIds(t', r) <==> id in incoming {
      if (r, id) in t' { assert t'[(r, id)] == SavedRow(t, (r, id), incoming, adopted, now); }
    }
  }

  /** No row of any record disappears, and no row of another record changes. */
  lemma SaveKeepsRows(t: Chunks, t': Chunks, r: string, incoming: map<string, ChunkWrite>, adopted: set<string>,
                      now: real)
    requires SavedAs(t, t', r, incoming, adopted, now)
    ensures forall key :: key in t ==> key in t' && (key.0 != r ==> t'[key] == t[key])
  {
  }

  /** After a save the live ids are the incoming ids; kept + superseded are the chunks that were live,
      kept + added the incoming ones. */
  lemma SaveReplacesLive(t: Chunks, t': Chunks, r: string, incoming: map<string, ChunkWrite>, adopted: set<string>,
                         now: real, d: ChunkDiff)
    requires !Clashes(t, r, incoming) && SavedAs(t, t', r, incoming, adopted, now)
    requires DiffOk(t, r, incoming, adopted, d)
    ensures LiveIds(t', r) == incoming.Keys && Ids(t', r) == Ids(t, r) + incoming.Keys
    ensures d.kept + d.superseded == |LiveIds(t, r)|
    ensures d.kept + d.added == |incoming|
  {
    SaveIds(t, t', r, incoming, adopted, now);
    var live, ids := LiveIds(t, r), incoming.Keys;
    SplitSize(live, ids);
    SplitSize(ids, live);
    assert ids * live == live * ids;
    assert |ids| == |incoming|;
  }

  lemma DoneAfterSave(t: Chunks, t': Chunks, r: string, incoming: map<string, ChunkWrite>, adopted: set<string>,
                      now: real, id: string)
    requires !Clashes(t, r, incoming) && SavedAs(t, t', r, incoming, adopted, now) && id in incoming
    ensures (r, id) in t' && (t'[(r, id)].status == Done <==>
      incoming[id].status == Done ||
      if id in LiveIds(t, r) then t[(r, id)].status == Done else incoming[id].text in adopted)
  {
    assert t'[(r, id)] == SavedRow(t, (r, id), incoming, adopted, now);
  }

  /** Work already done is kept: a kept chunk that was done stays done. */
  lemma DoneStaysDone(t: Chunks, t': Chunks, r: string, incoming: map<string, ChunkWrite>, adopted: set<string>,
                      now: real, id: string)
    requires !Clashes(t, r, incoming) && SavedAs(t, t', r, incoming, adopted, now)
    requires id in incoming && id in LiveIds(t, r) && t[(r, id)].status == Done
    ensures Live(t', (r, id)) && t'[(r, id)].status == Done && t'[(r, id)].text == t[(r, id)].text
  {
    assert t'[(r, id)] == SavedRow(t, (r, id), incoming, adopted, now);
  }

  lemma DisjointSize(a: set<string>, b: set<string>)
    requires a !! b
    ensures |a + b| == |a| + |b|
  {
  }

  /** Writes that arrive already done although nothing was there to reuse. */
  function NewlyDone(t: Chunks, r: string, incoming: map<string, ChunkWrite>, adopted: set<string>): set<string> {
    set id | id in incoming && incoming[id].status == Done
      && id !in KeptDone(t, r, incoming) && id !in AddedDone(t, r, incoming, adopted)
  }

  lemma DoneIsReusedOrNew(t: Chunks, t': Chunks, r: string, incoming: map<string, ChunkWrite>, adopted: set<string>,
                          now: real)
    requires !Clashes(t, r, incoming) && SavedAs(t, t', r, incoming, adopted, now)
    ensures DoneAmong(t', r, incoming.Keys) ==
      (KeptDone(t, r, incoming) + AddedDone(t, r, incoming, adopted)) + NewlyDone(t, r, incoming, adopted)
  {
    forall id | id in incoming
      ensures id in DoneAmong(t', r, incoming.Keys) <==>
        id in KeptDone(t, r, incoming) || id in AddedDone(t, r, incoming, adopted) ||
          id in NewlyDone(t, r, incoming, adopted)
    {
      DoneAfterSave(t, t', r, incoming, adopted, now, id);
    }
  }

  /** reusedDone never overstates the live chunks that need no extraction, and counts them all exactly when
      every write that arrives done was done before, if kept, or has an adopted text, if new. */
  lemma ReusedDoneIsWorkSaved(t: Chunks, t': Chunks, r: string, incoming: map<string, ChunkWrite>, adopted: set<string>,
                              now: real, d: ChunkDiff)
    requires !Clashes(t, r, incoming) && SavedAs(t, t', r, incoming, adopted, now)
    requires DiffOk(t, r, incoming, adopted, d)
    ensures d.reusedDone <= |DoneAmong(t', r, LiveIds(t', r))|
    ensures d.reusedDone == |DoneAmong(t', r, LiveIds(t', r))| <==>
      forall id :: id in incoming && incoming[id].status == Done ==>
        if id in LiveIds(t, r) then t[(r, id)].status == Done else incoming[id].text in adopted
  {
    SaveIds(t, t', r, incoming, adopted, now);
    DoneIsReusedOrNew(t, t', r, incoming, adopted, now);
    var kept, added, extra := KeptDone(t, r, incoming), AddedDone(t, r, incoming, adopted),
      NewlyDone(t, r, incoming, adopted);
    DisjointSize(kept, added);
    DisjointSize(kept + added, extra);
    NothingNewIff(t, r, incoming, adopted);
    assert |extra| == 0 <==> extra == {};
  }

  lemma NothingToReuse(r: string, incoming: map<string, ChunkWrite>)
    ensures KeptDone(map[], r, incoming) == {} && AddedDone(map[], r, incoming, {}) == {}
  {
  }

  lemma FirstSave(r: string, w: ChunkWrite, now: real)
    ensures SaveTable(map[], r, map[w.id := w], {}, now) == map[(r, w.id) := Added(w, {}, now)]
  {
    var t' := SaveTable(map[], r, map[w.id := w], {}, now);
    assert forall key :: key in t' <==> key == (r, w.id);
  }

  /** A first save of one chunk that arrives done: no extraction is left to make, and none is counted as saved. */
  lemma NewDoneIsNotCounted(r: string, w: ChunkWrite, now: real, d: ChunkDiff)
    requires w.status == Done && DiffOk(map[], r, map[w.id := w], {}, d)
    ensures var t' := SaveTable(map[], r, map[w.id := w], {}, now);
      d.reusedDone == 0 && LiveIds(t', r) == DoneAmong(t', r, LiveIds(t', r)) == {w.id}
  {
    NothingToReuse(r, map[w.id := w]);
    FirstSave(r, w, now);
  }

  lemma NothingNewIff(t: Chunks, r: string, incoming: map<string, ChunkWrite>, adopted: set<string>)
    ensures NewlyDone(t, r, incoming, adopted) == {} <==>
      forall id :: id in incoming && incoming[id].status == Done ==>
        if id in LiveIds(t, r) then t[(r, id)].status == Done else incoming[id].text in adopted
  {
    if NewlyDone(t, r, incoming, adopted) == {} {
      forall id | id in incoming && incoming[id].status == Done
        ensures if id in LiveIds(t, r) then t[(r, id)].status == Done else incoming[id].text in adopted
      {
        assert id !in NewlyDone(t, r, incoming, adopted);
      }
    }
  }

  // ---------------------------------------------------------------- any sequence of versions

  datatype Event =
    | Save(r: string, writes: seq<ChunkWrite>, adoptFrom: Option<string>, now: real)
    | CommitChunk(r: string, id: string, status: Status, now: real)
    | Requeue(keys: set<Key>)
    | Delete(r: string)
    | Purge(records: set<string>)

  function SaveTable(t: Chunks, r: string, incoming: map<string, ChunkWrite>, adopted: set<string>, now: real)
    : (t': Chunks)
    ensures SavedAs(t, t', r, incoming, adopted, now)
  {
    var arriving := set id | id in incoming :: (r, id);
    map key | key in t.Keys + arriving ::
      if key.0 == r then SavedRow(t, key, incoming, adopted, now) else t[key]
  }

  /** The relation leaves no choice. */
  lemma SavedIsUnique(t: Chunks, t1: Chunks, t2: Chunks, r: string, incoming: map<string, ChunkWrite>,
                      adopted: set<string>, now: real)
    requires SavedAs(t, t1, r, incoming, adopted, now) && SavedAs(t, t2, r, incoming, adopted, now)
    ensures t1 == t2
  {
    assert t1.Keys == t2.Keys;
  }

  function Committed(t: Chunks, key: Key, status: Status, now: real): Chunks {
    if key in t then t[key := t[key].(status := status, committedAt := now)] else t
  }

  function WithoutRecord(t: Chunks, r: string): Chunks {
    map key | key in t && key.0 != r :: t[key]
  }

  /** DELETE over a prefix: the keys it matches. */
  function WithoutRecords(t: Chunks, records: set<string>): Chunks {
    map key | key in t && key.0 !in records :: t[key]
  }

  /** UPDATE ... SET status = 'pending' over these keys. */
  function WithPending(t: Chunks, keys: set<Key>): Chunks {
    map key | key in t :: if key in keys then t[key].(status := Pending) else t[key]
  }

  function Apply(t: Chunks, e: Event): Chunks {
    match e
    case Save(r, writes, adoptFrom, now) =>
      if Clashes(t, r, Incoming(writes)) then t
      else SaveTable(t, r, Incoming(writes), AdoptedTexts(t, adoptFrom), now)
    case CommitChunk(r, id, status, now) => Committed(t, (r, id), status, now)
    case Requeue(keys) => WithPending(t, keys)
    case Delete(r) => WithoutRecord(t, r)
    case Purge(records) => WithoutRecords(t, records)
  }

  function Run(t: Chunks, events: seq<Event>): Chunks {
    if events == [] then t else Apply(Run(t, events[..|events| - 1]), events[|events| - 1])
  }

  /** What the record's history alone predicts: the ids of its last accepted version, and every id it
      ever had. A version that brings back an id it had lost is not accepted. */
  datatype Memory = Memory(current: set<string>, ever: set<string>)

  predicate Accepts(m: Memory, ids: set<string>) { ids !! m.ever - m.current }

  function Remember(events: seq<Event>, r: string): Memory {
    if events == [] then Memory({}, {})
    else
      var m := Remember(events[..|events| - 1], r);
      match events[|events| - 1]
      case Save(s, writes, _, _) =>
        var ids := Incoming(writes).Keys;
        if s == r && Accepts(m, ids) then Memory(ids, m.ever + ids) else m
      case CommitChunk(_, _, _, _) => m
      case Requeue(_) => m
      case Delete(s) => if s == r then Memory({}, {}) else m
      case Purge(records) => if r in records then Memory({}, {}) else m
  }

  lemma CommitKeepsIds(t: Chunks, key: Key, status: Status, now: real, r: string)
    ensures LiveIds(Committed(t, key, status, now), r) == LiveIds(t, r)
    ensures Ids(Committed(t, key, status, now), r) == Ids(t, r)
  {
  }

  lemma PendingKeepsIds(t: Chunks, keys: set<Key>, r: string)
    ensures LiveIds(WithPending(t, keys), r) == LiveIds(t, r) && Ids(WithPending(t, keys), r) == Ids(t, r)
  {
  }

  lemma SaveKeepsOthers(t: Chunks, t': Chunks, r: string, incoming: map<string, ChunkWrite>, adopted: set<string>,
                        now: real, other: string)
    requires SavedAs(t, t', r, incoming, adopted, now) && other != r
    ensures LiveIds(t', other) == LiveIds(t, other) && Ids(t', other) == Ids(t, other)
  {
    forall id ensures (other, id) in t' <==> (other, id) in t { }
    forall id ensures Live(t', (other, id)) <==> Live(t, (other, id)) {
      if (other, id) in t' { assert t'[(other, id)] == t[(other, id)]; }
    }
  }

  lemma ClashesIffReturns(t: Chunks, r: string, incoming: map<string, ChunkWrite>)
    ensures Clashes(t, r, incoming) <==> !(incoming.Keys !! Ids(t, r) - LiveIds(t, r))
  {
    if Clashes(t, r, incoming) {
      var id :| id in incoming && (r, id) in t && !Live(t, (r, id));
      assert id in incoming.Keys * (Ids(t, r) - LiveIds(t, r));
    }
    if x :| x in incoming.Keys && x in Ids(t, r) - LiveIds(t, r) {
      assert x in incoming && (r, x) in t && !Live(t, (r, x));
    }
  }

  /** Over any run of saves, commits, requeues, deletes and purges, the table holds for each record exactly
      what its own history predicts: so a save succeeds iff it brings back no id the record had lost. */
  lemma {:induction false} TableMatchesHistory(events: seq<Event>, r: string)
    ensures var t, m := Run(map[], events), Remember(events, r);
      LiveIds(t, r) == m.current && Ids(t, r) == m.ever
  {
    if events != [] {
      var before, e := events[..|events| - 1], events[|events| - 1];
      var t := Run(map[], before);
      TableMatchesHistory(before, r);
      match e
      case Save(s, writes, adoptFrom, now) =>
        var incoming := Incoming(writes);
        var t' := SaveTable(t, s, incoming, AdoptedTexts(t, adoptFrom), now);
        ClashesIffReturns(t, s, incoming);
        if s == r {
          if !Clashes(t, r, incoming) { SaveIds(t, t', r, incoming, AdoptedTexts(t, adoptFrom), now); }
        } else {
          SaveKeepsOthers(t, t', s, incoming, AdoptedTexts(t, adoptFrom), now, r);
        }
      case CommitChunk(s, id, status, now) =>
        CommitKeepsIds(t, (s, id), status, now, r);
      case Requeue(keys) =>
        PendingKeepsIds(t, keys, r);
      case Delete(s) =>
      case Purge(records) =>
    }
  }

  // ---------------------------------------------------------------- what a save leaves, row by row

  lemma {:induction false} LastWriteCounts(writes: seq<ChunkWrite>, i: nat)
    requires i < |writes| && forall j :: i < j < |writes| ==> writes[j].id != writes[i].id
    ensures writes[i].id in Incoming(writes) && Incoming(writes)[writes[i].id] == writes[i]
  {
    var last := |writes| - 1;
    if i < last { LastWriteCounts(writes[..last], i); }
  }

  lemma {:induction false} IncomingIsWritten(writes: seq<ChunkWrite>, id: string)
    ensures id in Incoming(writes) <==> exists i :: 0 <= i < |writes| && writes[i].id == id
  {
    if writes != [] {
      var last := |writes| - 1;
      IncomingIsWritten(writes[..last], id);
      if i :| 0 <= i < |writes| && writes[i].id == id {
        if i < last { assert writes[..last][i].id == id; }
      }
      if id in Incoming(writes[..last]) {
        var i :| 0 <= i < last && writes[..last][i].id == id;
        assert writes[i].id == id;
      }
    }
  }

  /** No write names a superseded chunk of the record: what a save needs to go through. */
  ghost predicate Accepted(t: Chunks, r: string, writes: seq<ChunkWrite>) {
    forall i :: 0 <= i < |writes| && (r, writes[i].id) in t ==> t[(r, writes[i].id)].supersededAt.None?
  }

  lemma AcceptedIff(t: Chunks, r: string, writes: seq<ChunkWrite>)
    ensures Accepted(t, r, writes) <==> !Clashes(t, r, Incoming(writes))
  {
    if id :| id in Incoming(writes) && (r, id) in t && !Live(t, (r, id)) {
      IncomingIsWritten(writes, id);
      var i :| 0 <= i < |writes| && writes[i].id == id;
      assert (r, writes[i].id) in t;
    }
    if i :| 0 <= i < |writes| && (r, writes[i].id) in t && !t[(r, writes[i].id)].supersededAt.None? {
      IncomingIsWritten(writes, writes[i].id);
      assert !Live(t, (r, writes[i].id));
    }
  }

  lemma SavedRowOf(t: Chunks, r: string, writes: seq<ChunkWrite>, adoptFrom: Option<string>, now: real, id: string)
    requires Accepted(t, r, writes)
    ensures var t' := Apply(t, Save(r, writes, adoptFrom, now));
      && ((r, id) in t' <==> (r, id) in t || id in Incoming(writes))
      && ((r, id) in t' ==> t'[(r, id)] == SavedRow(t, (r, id), Incoming(writes), AdoptedTexts(t, adoptFrom), now))
  {
    AcceptedIff(t, r, writes);
  }

  /** A chunk the record did not have: its row holds what the last write with its id says, committed now, and is
      done if this text was done in a live chunk of the record adopted from. */
  lemma SaveWritesNew(t: Chunks, r: string, writes: seq<ChunkWrite>, adoptFrom: Option<string>, now: real, i: nat)
    requires forall j :: 0 <= j < |writes| && (r, writes[j].id) in t ==> t[(r, writes[j].id)].supersededAt.None?
    requires i < |writes| && (r, writes[i].id) !in t && forall j :: i < j < |writes| ==> writes[j].id != writes[i].id
    ensures var w, t' := writes[i], Apply(t, Save(r, writes, adoptFrom, now));
      && (r, w.id) in t'
      && var row := t'[(r, w.id)];
      && row.text == w.text && row.index == w.index && row.llmText == w.llmText
      && row.resolution == w.resolution && row.reason == w.reason
      && row.committedAt == now && row.supersededAt.None?
      && var adopted := exists key :: key in t && adoptFrom == Some(key.0) && key.0 != "" &&
                                      t[key].text == w.text && t[key].status == Done && t[key].supersededAt.None?;
         row.status == if adopted then Done else w.status
  {
    LastWriteCounts(writes, i);
    SavedRowOf(t, r, writes, adoptFrom, now, writes[i].id);
  }

  /** A chunk the record keeps: its text and commit time stay, its place and disposition are those of the last
      write with its id, and it is done if it was or arrives so, otherwise pending. */
  lemma SaveUpdatesKept(t: Chunks, r: string, writes: seq<ChunkWrite>, adoptFrom: Option<string>, now: real, i: nat)
    requires forall j :: 0 <= j < |writes| && (r, writes[j].id) in t ==> t[(r, writes[j].id)].supersededAt.None?
    requires i < |writes| && (r, writes[i].id) in t && forall j :: i < j < |writes| ==> writes[j].id != writes[i].id
    ensures var w, t' := writes[i], Apply(t, Save(r, writes, adoptFrom, now));
      && (r, w.id) in t'
      && var was, row := t[(r, w.id)], t'[(r, w.id)];
      && row.text == was.text && row.committedAt == was.committedAt && row.supersededAt.None?
      && row.index == w.index && row.llmText == w.llmText && row.resolution == w.resolution && row.reason == w.reason
      && row.status == if was.status == Done || w.status == Done then Done else Pending
  {
    LastWriteCounts(writes, i);
    SavedRowOf(t, r, writes, adoptFrom, now, writes[i].id);
  }

  /** A chunk no write names: live, it is superseded now and otherwise unchanged; superseded, it stays as it is. */
  lemma SaveSupersedesGone(t: Chunks, r: string, writes: seq<ChunkWrite>, adoptFrom: Option<string>, now: real,
                           id: string)
    requires forall j :: 0 <= j < |writes| && (r, writes[j].id) in t ==> t[(r, writes[j].id)].supersededAt.None?
    requires forall j :: 0 <= j < |writes| ==> writes[j].id != id
    ensures var t' := Apply(t, Save(r, writes, adoptFrom, now));
      && ((r, id) in t' <==> (r, id) in t)
      && ((r, id) in t ==>
            var was, row := t[(r, id)], t'[(r, id)];
            && row == was.(supersededAt := row.supersededAt)
            && row.supersededAt == if was.supersededAt.None? then Some(now) else was.supersededAt)
  {
    IncomingIsWritten(writes, id);
    SavedRowOf(t, r, writes, adoptFrom, now, id);
  }

  /** A save changes no other record's chunks, and one that names a superseded chunk changes nothing. */
  lemma SaveLeavesTheRest(t: Chunks, r: string, writes: seq<ChunkWrite>, adoptFrom: Option<string>, now: real)
    ensures var t' := Apply(t, Save(r, writes, adoptFrom, now));
      && (forall key: Key :: key.0 != r ==> (key in t' <==> key in t) && (key in t ==> t'[key] == t[key]))
      && ((exists i :: 0 <= i < |writes| && (r, writes[i].id) in t && t[(r, writes[i].id)].supersededAt.Some?) ==>
            t' == t)
  {
    AcceptedIff(t, r, writes);
  }

  // ---------------------------------------------------------------- what lasts

  lemma SaveSucceedsIff(events: seq<Event>, r: string, writes: seq<ChunkWrite>)
    ensures Clashes(Run(map[], events), r, Incoming(writes)) <==> !Accepts(Remember(events, r), Incoming(writes).Keys)
  {
    TableMatchesHistory(events, r);
    ClashesIffReturns(Run(map[], events), r, Incoming(writes));
  }

  /** An event that gives no reason to extract this chunk again or to forget it. */
  predicate Spares(e: Event, key: Key) {
    match e
    case Save(r, writes, _, _) => r == key.0 ==> key.1 in Incoming(writes)
    case CommitChunk(r, id, status, _) => (r, id) == key ==> status == Done
    case Requeue(keys) => key !in keys
    case Delete(r) => r != key.0
    case Purge(records) => key.0 !in records
  }

  /** Work already done is kept: while every version of its record has the chunk and it is neither requeued nor
      deleted, a done chunk stays live and done, with its text, over any run. */
  lemma {:induction false} DoneLasts(t: Chunks, events: seq<Event>, key: Key)
    requires Live(t, key) && t[key].status == Done && forall e :: e in events ==> Spares(e, key)
    ensures var t' := Run(t, events); Live(t', key) && t'[key].status == Done && t'[key].text == t[key].text
  {
    if events != [] {
      var before, e := events[..|events| - 1], events[|events| - 1];
      DoneLasts(t, before, key);
      assert Spares(e, key);
      var there := Run(t, before);
      if e.Save? && !Clashes(there, e.r, Incoming(e.writes)) {
        var incoming, adopted := Incoming(e.writes), AdoptedTexts(there, e.adoptFrom);
        var next := SaveTable(there, e.r, incoming, adopted, e.now);
        if e.r == key.0 {
          DoneStaysDone(there, next, e.r, incoming, adopted, e.now, key.1);
          assert key == (e.r, key.1);
        } else {
          SaveKeepsRows(there, next, e.r, incoming, adopted, e.now);
        }
      }
    }
  }

  /** Reverting an edit fails: save A, then a B that drops a chunk of A, then A again. */
  lemma RevertedEditFails(r: string, a: seq<ChunkWrite>, b: seq<ChunkWrite>, now: real)
    requires !(Incoming(a).Keys <= Incoming(b).Keys)
    ensures var events := [Save(r, a, None, now), Save(r, b, None, now)];
      Clashes(Run(map[], events), r, Incoming(a))
  {
    var first, second := Save(r, a, None, now), Save(r, b, None, now);
    var events := [first, second];
    assert events[..1] == [first] && [first][..0] == [];
    assert Remember([], r) == Memory({}, {});
    assert Remember([first], r) == Memory(Incoming(a).Keys, {} + Incoming(a).Keys);
    assert Remember(events, r).current == Incoming(b).Keys;
    assert Remember(events, r).ever == Incoming(a).Keys + Incoming(b).Keys;
    SaveSucceedsIff(events, r, a);
    var id :| id in Incoming(a).Keys && id !in Incoming(b).Keys;
    assert id in Incoming(a).Keys * (Remember(events, r).ever - Remember(events, r).current);
  }
}

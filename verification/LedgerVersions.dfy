/** Record state and append-only version history of connectors/core/ledger.py: commit,
    record_version, commit_delete. A commit is two transactions: a run may crash between them, or put those
    of another commit there. */
module LedgerVersions {
  import opened Options
  import opened LedgerChunks

  datatype Record = Record(
    hash: string, uid: Option<string>, status: Status, priority: int, updates: nat, updatedAt: real)

  /** record_versions, keyed by (record_key, version). */
  type Versions = map<(string, int), string>

  /** source_records and record_versions. */
  datatype Book = Book(records: map<string, Record>, versions: Versions)

  // ---------------------------------------------------------------- statements

  /** INSERT ... ON CONFLICT(record_key) DO UPDATE. */
  function Upserted(records: map<string, Record>, r: string, hash: string, uid: Option<string>, status: Status,
                    now: real)
    : map<string, Record>
  {
    if r !in records then records[r := Record(hash, uid, status, 100, 0, now)]
    else
      var bumped := 200 + records[r].updates;
      records[r := Record(hash, uid, status, if bumped < 300 then bumped else 300, records[r].updates + 1, now)]
  }

  function Rows(versions: Versions, r: string): set<(string, int)> {
    set key | key in versions && key.0 == r
  }

  predicate IsTop(keys: set<(string, int)>, key: (string, int)) {
    key in keys && forall other :: other in keys ==> other.1 <= key.1
  }

  predicate IsLatest(versions: Versions, r: string, key: (string, int)) {
    IsTop(Rows(versions, r), key)
  }

  lemma {:induction false} TopExists(keys: set<(string, int)>)
    requires keys != {}
    ensures exists key :: IsTop(keys, key)
  {
    var x :| x in keys;
    var rest := keys - {x};
    if rest == {} {
      forall k | k in keys ensures k.1 <= x.1 { assert k in rest || k == x; }
      assert IsTop(keys, x);
    } else {
      TopExists(rest);
      var y :| IsTop(rest, y);
      var top := if x.1 <= y.1 then y else x;
      forall k | k in keys ensures k.1 <= top.1 { assert k in rest || k == x; }
      assert IsTop(keys, top);
    }
  }

  /** The number of the latest version, 0 if there is none. */
  function LatestNumber(versions: Versions, r: string): (n: int)
    ensures Rows(versions, r) == {} ==> n == 0
    ensures Rows(versions, r) != {} ==> IsLatest(versions, r, (r, n))
  {
    if Rows(versions, r) == {} then 0
    else
      TopExists(Rows(versions, r));
      assert exists key :: key in versions && IsLatest(versions, r, key);
      var key :| key in versions && IsLatest(versions, r, key);
      key.1
  }

  /** The table spells a history of this record: versions 1..n, gap-free. */
  ghost predicate Spells(versions: Versions, r: string, history: seq<string>) {
    && (forall key :: key in versions && key.0 == r ==> 1 <= key.1 <= |history|)
    && (forall n :: 1 <= n <= |history| ==> (r, n) in versions && versions[(r, n)] == history[n - 1])
  }

  /** Appending a hash unless it repeats the last one. */
  function Extended(history: seq<string>, hash: string): seq<string> {
    if history != [] && history[|history| - 1] == hash then history else history + [hash]
  }

  /** The version a hash is recorded under, and the table with it. */
  function VersionFor(versions: Versions, r: string, hash: string): int {
    var latest := LatestNumber(versions, r);
    if (r, latest) in versions && versions[(r, latest)] == hash then latest else latest + 1
  }

  function WithVersion(versions: Versions, r: string, hash: string): Versions {
    versions[(r, VersionFor(versions, r, hash)) := hash]
  }

  lemma LatestOfSpelled(versions: Versions, r: string, history: seq<string>)
    requires Spells(versions, r, history)
    ensures LatestNumber(versions, r) == |history|
    ensures history == [] ==> Rows(versions, r) == {}
  {
    if history != [] {
      assert (r, |history|) in Rows(versions, r);
      assert (r, LatestNumber(versions, r)) in versions;
    } else {
      assert forall key :: key !in Rows(versions, r);
    }
  }

  /** Recording a hash extends the history exactly when the content changed, leaves other records alone,
      and returns the length of the history. */
  lemma RecordingExtends(versions: Versions, r: string, hash: string, history: seq<string>)
    requires Spells(versions, r, history)
    ensures Spells(WithVersion(versions, r, hash), r, Extended(history, hash))
    ensures VersionFor(versions, r, hash) == |Extended(history, hash)|
  {
    LatestOfSpelled(versions, r, history);
    if history == [] { assert (r, 0) !in versions; }
  }

  lemma RecordingElsewhere(versions: Versions, r: string, hash: string, other: string, history: seq<string>)
    requires Spells(versions, other, history) && other != r
    ensures Spells(WithVersion(versions, r, hash), other, history)
  {
  }

  // ---------------------------------------------------------------- whole runs

  /** Upsert and Version are the two transactions of a commit. */
  datatype Event =
    | Upsert(r: string, hash: string, uid: Option<string>, status: Status, now: real)
    | Version(r: string, hash: string)
    | Delete(r: string)

  function Apply(b: Book, e: Event): Book {
    match e
    case Upsert(r, hash, uid, status, now) => b.(records := Upserted(b.records, r, hash, uid, status, now))
    case Version(r, hash) => b.(versions := WithVersion(b.versions, r, hash))
    case Delete(r) => b.(records := b.records - {r})
  }

  function Run(events: seq<Event>): Book {
    if events == [] then Book(map[], map[]) else Apply(Run(events[..|events| - 1]), events[|events| - 1])
  }

  /** The hashes recorded for the record with consecutive repeats removed: deletes do not count. */
  function Collapsed(events: seq<Event>, r: string): seq<string> {
    if events == [] then []
    else
      var h, e := Collapsed(events[..|events| - 1], r), events[|events| - 1];
      if e.Version? && e.r == r then Extended(h, e.hash) else h
  }

  /** Commits of the record begun since it was last absent. */
  function CommitsSinceInsert(events: seq<Event>, r: string): nat {
    if events == [] then 0
    else
      var n, e := CommitsSinceInsert(events[..|events| - 1], r), events[|events| - 1];
      if e.r != r || e.Version? then n else if e.Upsert? then n + 1 else 0
  }

  /** The hash of the last commit of the record that reached its first, and its second transaction. */
  function LastBegun(events: seq<Event>, r: string): Option<string> {
    if events == [] then None
    else
      var e := events[|events| - 1];
      if e.Upsert? && e.r == r then Some(e.hash) else LastBegun(events[..|events| - 1], r)
  }

  function LastRecorded(events: seq<Event>, r: string): Option<string> {
    if events == [] then None
    else
      var e := events[|events| - 1];
      if e.Version? && e.r == r then Some(e.hash) else LastRecorded(events[..|events| - 1], r)
  }

  /** Over any run, however commits crash or interleave, the versions of a record are numbered 1..n without
      gaps and spell the recorded hashes with consecutive repeats removed. */
  lemma {:induction false} HistoryIsCollapse(events: seq<Event>, r: string)
    ensures Spells(Run(events).versions, r, Collapsed(events, r))
  {
    if events != [] {
      var before, e := events[..|events| - 1], events[|events| - 1];
      HistoryIsCollapse(before, r);
      if e.Version? {
        var vs := Run(before).versions;
        if e.r == r {
          RecordingExtends(vs, r, e.hash, Collapsed(before, r));
        } else {
          RecordingElsewhere(vs, e.r, e.hash, r, Collapsed(before, r));
        }
      }
    }
  }

  function PriorityAfter(n: nat): int {
    if n == 1 then 100 else if 198 + n < 300 then 198 + n else 300
  }

  /** After n commits since insertion the priority is 100 if n = 1, else min(300, 198 + n). */
  lemma {:induction false} PriorityCountsCommits(events: seq<Event>, r: string)
    ensures var b, n := Run(events), CommitsSinceInsert(events, r);
      && (r in b.records <==> n > 0)
      && (n > 0 ==> b.records[r].priority == PriorityAfter(n) && b.records[r].updates == n - 1)
  {
    if events != [] { PriorityCountsCommits(events[..|events| - 1], r); }
  }

  lemma {:induction false} CurrentIsLastBegun(events: seq<Event>, r: string)
    requires r in Run(events).records
    ensures LastBegun(events, r) == Some(Run(events).records[r].hash)
  {
    if events != [] {
      var before := events[..|events| - 1];
      if r in Run(before).records { CurrentIsLastBegun(before, r); }
    }
  }

  lemma {:induction false} LatestIsLastRecorded(events: seq<Event>, r: string)
    ensures LastRecorded(events, r) ==
      if Collapsed(events, r) == [] then None else Some(Collapsed(events, r)[|Collapsed(events, r)| - 1])
  {
    if events != [] { LatestIsLastRecorded(events[..|events| - 1], r); }
  }

  /** The hash of the record's latest version row, if it has one. */
  function LatestHash(versions: Versions, r: string): Option<string> {
    var n := LatestNumber(versions, r);
    if (r, n) in versions then Some(versions[(r, n)]) else None
  }

  lemma LatestHashOfSpelled(versions: Versions, r: string, history: seq<string>)
    requires Spells(versions, r, history)
    ensures LatestHash(versions, r) == if history == [] then None else Some(history[|history| - 1])
  {
    LatestOfSpelled(versions, r, history);
    if history == [] { assert (r, 0) !in versions; }
  }

  /** While the record is present its current hash is its latest version exactly when the last commit to reach
      its second transaction carried the hash of the last one to reach its first: not after a crash between
      the two with new content, nor when two commits passed each other there. */
  lemma CurrentIsLatestVersionIff(events: seq<Event>, r: string)
    requires r in Run(events).records
    ensures var b := Run(events);
      LatestHash(b.versions, r) == Some(b.records[r].hash) <==> LastRecorded(events, r) == LastBegun(events, r)
  {
    CurrentIsLastBegun(events, r);
    LatestIsLastRecorded(events, r);
    HistoryIsCollapse(events, r);
    LatestHashOfSpelled(Run(events).versions, r, Collapsed(events, r));
  }

  /** A commit whose two transactions follow one another leaves the record at its latest version. */
  lemma CompletedCommitIsLatest(events: seq<Event>, r: string, hash: string, uid: Option<string>, status: Status,
                                now: real)
    ensures var b := Run(events + [Upsert(r, hash, uid, status, now), Version(r, hash)]);
      r in b.records && b.records[r].hash == hash && LatestHash(b.versions, r) == Some(hash)
  {
    var one := events + [Upsert(r, hash, uid, status, now)];
    var two := events + [Upsert(r, hash, uid, status, now), Version(r, hash)];
    assert one[..|one| - 1] == events && two[..|two| - 1] == one;
    assert Run(one) == Apply(Run(events), Upsert(r, hash, uid, status, now));
    assert Run(two) == Apply(Run(one), Version(r, hash));
    CurrentIsLatestVersionIff(two, r);
  }

  /** Two commits of one record, the second passing the first between its transactions. */
  lemma InterleavedCommitsDiverge(r: string, first: string, second: string, uid: Option<string>, status: Status,
                                  now: real)
    requires first != second
    ensures var begun := [Upsert(r, first, uid, status, now), Upsert(r, second, uid, status, now)];
      var b := Run(begun + [Version(r, second), Version(r, first)]);
      r in b.records && b.records[r].hash == second && LatestHash(b.versions, r) == Some(first)
  {
    var a, b := Upsert(r, first, uid, status, now), Upsert(r, second, uid, status, now);
    var c, d := Version(r, second), Version(r, first);
    var events := [a, b, c, d];
    assert events == [a, b] + [c, d];
    assert events[..3] == [a, b, c] && [a, b, c][..2] == [a, b] && [a, b][..1] == [a] && [a][..0] == [];
    assert LastRecorded(events, r) == Some(first) && LastBegun([a, b], r) == Some(second);
    assert LastBegun([a, b, c], r) == Some(second) && LastBegun(events, r) == Some(second);
    assert r in Run([a]).records && r in Run([a, b]).records && r in Run([a, b, c]).records && r in Run(events).records;
    CurrentIsLastBegun(events, r);
    LatestIsLastRecorded(events, r);
    HistoryIsCollapse(events, r);
    LatestHashOfSpelled(Run(events).versions, r, Collapsed(events, r));
  }

  /** No two neighbouring versions carry the same hash, so the version number counts real changes. */
  lemma {:induction false} NoRepeats(events: seq<Event>, r: string, k: nat)
    requires k + 1 < |Collapsed(events, r)|
    ensures Collapsed(events, r)[k] != Collapsed(events, r)[k + 1]
  {
    if events != [] {
      var before := Collapsed(events[..|events| - 1], r);
      if k + 1 < |before| { NoRepeats(events[..|events| - 1], r, k); }
    }
  }
}

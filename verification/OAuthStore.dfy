/** OAuth states and sync runs of connectors/core/oauth_store.py. Times are points on a line: that
    comparing their ISO text decides the same way is IsoTime.TextOrderIsTimeOrder. */
module OAuthStore {
  import opened Options

  /** (provider, state_hash) */
  type StateKey = (string, string)

  datatype StateRow = StateRow(sessionHash: string, expiresAt: real)

  type States = map<StateKey, StateRow>

  datatype Event =
    | Create(key: StateKey, session: string, ttl: real, now: real)
    | Consume(key: StateKey, now: real)

  // ---------------------------------------------------------------- states

  /** DELETE ... WHERE provider = ? AND expires_at < ? */
  function Cleaned(t: States, provider: string, now: real): States {
    map k | k in t && !(k.0 == provider && t[k].expiresAt < now) :: t[k]
  }

  /** A hash that is still there violates the primary key, and the cleanup is rolled back with the insert. */
  function CreatedState(t: States, key: StateKey, session: string, ttl: real, now: real): States {
    var cleaned := Cleaned(t, key.0, now);
    if key in cleaned then t else cleaned[key := StateRow(session, now + ttl)]
  }

  /** What a callback at this moment gets. */
  function Redeemed(t: States, key: StateKey, now: real): Option<string> {
    if key in t && t[key].expiresAt >= now then Some(t[key].sessionHash) else None
  }

  function Apply(t: States, e: Event): States {
    match e
    case Create(key, session, ttl, now) => CreatedState(t, key, session, ttl, now)
    case Consume(key, now) => t - {key}
  }

  function Run(events: seq<Event>): States {
    if events == [] then map[] else Apply(Run(events[..|events| - 1]), events[|events| - 1])
  }

  predicate Inserts(t: States, e: Event, key: StateKey) {
    e.Create? && e.key == key && key !in Cleaned(t, key.0, e.now)
  }

  /** How often a run created this state, and how often a callback redeemed it. */
  function Creations(events: seq<Event>, key: StateKey): nat {
    if events == [] then 0
    else
      var before, e := events[..|events| - 1], events[|events| - 1];
      Creations(before, key) + if Inserts(Run(before), e, key) then 1 else 0
  }

  function Redemptions(events: seq<Event>, key: StateKey): nat {
    if events == [] then 0
    else
      var before, e := events[..|events| - 1], events[|events| - 1];
      Redemptions(before, key) + if e.Consume? && e.key == key && Redeemed(Run(before), key, e.now).Some? then 1 else 0
  }

  /** Whatever the interleaving, a state is redeemed at most once for each time it was created - so, the
      tokens being distinct, at most once. */
  lemma {:induction false} StateIsSingleUse(events: seq<Event>, key: StateKey)
    ensures Redemptions(events, key) + (if key in Run(events) then 1 else 0) <= Creations(events, key)
  {
    if events != [] { StateIsSingleUse(events[..|events| - 1], key); }
  }

  // ---------------------------------------------------------------- the cleanup is invisible

  ghost predicate Ordered(events: seq<Event>) {
    forall i, j :: 0 <= i < j < |events| ==> events[i].now <= events[j].now
  }

  /** The same store without cleanup: an expired row stays until its own hash is created again or consumed. */
  function ApplyLazily(t: States, e: Event): States {
    match e
    case Create(key, session, ttl, now) =>
      if key in t && t[key].expiresAt >= now then t else t[key := StateRow(session, now + ttl)]
    case Consume(key, now) => t - {key}
  }

  function RunLazily(events: seq<Event>): States {
    if events == [] then map[] else ApplyLazily(RunLazily(events[..|events| - 1]), events[|events| - 1])
  }

  /** Rows that can still be redeemed at `now` are the same in both tables. */
  ghost predicate AgreeFrom(t: States, lazy: States, now: real) {
    && (forall k :: k in t ==> k in lazy && lazy[k] == t[k])
    && (forall k :: k in lazy && k !in t ==> lazy[k].expiresAt < now)
  }

  lemma StepAgrees(t: States, lazy: States, e: Event, clock: real)
    requires AgreeFrom(t, lazy, clock) && clock <= e.now
    ensures AgreeFrom(Apply(t, e), ApplyLazily(lazy, e), e.now)
  {
  }

  lemma {:induction false} RunsAgree(events: seq<Event>, now: real)
    requires Ordered(events) && forall i :: 0 <= i < |events| ==> events[i].now <= now
    ensures AgreeFrom(Run(events), RunLazily(events), now)
  {
    if events != [] {
      var before, e := events[..|events| - 1], events[|events| - 1];
      RunsAgree(before, e.now);
      StepAgrees(Run(before), RunLazily(before), e, e.now);
    }
  }

  /** While the clock does not run backwards, deleting expired rows changes no callback's outcome. */
  lemma CleanupIsInvisible(events: seq<Event>, key: StateKey, now: real)
    requires Ordered(events) && forall i :: 0 <= i < |events| ==> events[i].now <= now
    ensures Redeemed(Run(events), key, now) == Redeemed(RunLazily(events), key, now)
  {
    RunsAgree(events, now);
  }

  /** The event that put a row there: the latest one about the key, creating it for that session. */
  lemma {:induction false} RowHasOrigin(events: seq<Event>, key: StateKey) returns (i: nat)
    requires key in Run(events)
    ensures i < |events| && events[i].Create? && events[i].key == key
    ensures Run(events)[key] == StateRow(events[i].session, events[i].now + events[i].ttl)
    ensures forall j :: i < j < |events| ==> !(events[j].Consume? && events[j].key == key)
  {
    var before, e := events[..|events| - 1], events[|events| - 1];
    if e.Create? && e.key == key && key !in Cleaned(Run(before), key.0, e.now) {
      i := |events| - 1;
    } else {
      i := RowHasOrigin(before, key);
    }
  }

  /** A callback that succeeds gets the session that created the state, no later than its time to live
      after that, and with no callback for the same state in between. */
  lemma RedeemedMeansCreated(events: seq<Event>, key: StateKey, now: real) returns (i: nat)
    requires Redeemed(Run(events), key, now).Some?
    ensures i < |events| && events[i].Create? && events[i].key == key
    ensures Redeemed(Run(events), key, now) == Some(events[i].session) && now <= events[i].now + events[i].ttl
    ensures forall j :: i < j < |events| ==> !(events[j].Consume? && events[j].key == key)
  {
    i := RowHasOrigin(events, key);
  }

  lemma OthersLeaveIt(t: States, e: Event, key: StateKey)
    requires e.key != key
    ensures key in Apply(t, e) ==> key in t && Apply(t, e)[key] == t[key]
    ensures key in t && key !in Apply(t, e) ==> t[key].expiresAt < e.now
  {
  }

  /** Conversely: a state that was created and has not been seen by a callback since is good for that session up to
      and including the end of its lifetime, whatever is created and cleaned up around it, and no longer. */
  lemma {:induction false} CreatedIsRedeemable(events: seq<Event>, key: StateKey, i: nat, now: real)
    requires Ordered(events) && forall j :: 0 <= j < |events| ==> events[j].now <= now
    requires i < |events| && events[i].Create? && events[i].key == key
    requires key in Run(events[..i]) ==> Run(events[..i])[key].expiresAt < events[i].now
    requires forall j :: i < j < |events| ==> events[j].key != key
    ensures key in Run(events) ==> Run(events)[key] == StateRow(events[i].session, events[i].now + events[i].ttl)
    ensures Redeemed(Run(events), key, now) ==
      if now <= events[i].now + events[i].ttl then Some(events[i].session) else None
  {
    var last := |events| - 1;
    var before := events[..last];
    if i < last {
      assert before[..i] == events[..i];
      CreatedIsRedeemable(before, key, i, events[last].now);
      OthersLeaveIt(Run(before), events[last], key);
    }
  }

  // ---------------------------------------------------------------- sync runs

  datatype RunStatus = Queued | Running | Completed | Failed

  datatype Scope = Scope(provider: string, connection: string, source: string, graph: string)

  datatype SyncRun = SyncRun(
    scope: Scope, status: RunStatus, startedAt: real, finishedAt: Option<real>, result: Option<string>,
    error: Option<string>)

  datatype Source = Source(name: string, groupId: string, config: string, lastSyncAt: Option<real>,
                           lastSyncError: Option<string>)

  /** Keyed by (provider, connection, source). */
  type Sources = map<(string, string, string), Source>

  /** finished_at of a status */
  function Finished(status: RunStatus, now: real): Option<real> {
    if status == Completed || status == Failed then Some(now) else None
  }

  /** What a run that ends leaves on its source row. */
  function Noted(sources: Sources, r: SyncRun, provider: string, finished: Option<real>,
                 error: Option<string>): Sources {
    var k := (provider, r.scope.connection, r.scope.source);
    if finished.Some? && k in sources
    then sources[k := sources[k].(lastSyncAt := finished, lastSyncError := error)]
    else sources
  }

  /** Keyed by (provider, run_id). */
  type Runs = map<(string, string), SyncRun>

  predicate Active(r: SyncRun) { r.status == Queued || r.status == Running }

  /** The partial unique index oauth_one_active_sync_per_source. */
  ghost predicate OneActive(t: Runs) {
    forall a, b :: a in t && b in t && Active(t[a]) && Active(t[b]) && t[a].scope == t[b].scope ==> a == b
  }

  predicate Busy(t: Runs, scope: Scope) {
    exists k :: k in t && Active(t[k]) && t[k].scope == scope
  }

  /** Another run of the same scope is active. */
  predicate Blocked(t: Runs, k: (string, string))
    requires k in t
  {
    exists other :: other in t && other != k && Active(t[other]) && t[other].scope == t[k].scope
  }

  lemma UpdateKeepsIndex(t: Runs, k: (string, string), row: SyncRun)
    requires OneActive(t) && k in t && row.scope == t[k].scope && (Active(row) ==> !Blocked(t, k))
    ensures OneActive(t[k := row])
  {
  }

  /** A run that is under way can always be updated; one that has ended can be made active again exactly when no
      run of its scope is active. */
  lemma BlockedIff(t: Runs, k: (string, string))
    requires OneActive(t) && k in t
    ensures Blocked(t, k) <==> t[k].status in {Completed, Failed} && exists other ::
      other in t && t[other].status in {Queued, Running} && t[other].scope == t[k].scope
  {
  }

  /** fail_orphaned_runs looks at every graph of the source. */
  predicate Orphaned(k: (string, string), r: SyncRun, provider: string, connection: string, source: string,
                     live: set<string>) {
    k.0 == provider && r.scope.connection == connection && r.scope.source == source && Active(r) && k.1 !in live
  }

  function Ended(r: SyncRun, error: string, now: real): SyncRun {
    r.(status := Failed, finishedAt := Some(now), error := Some(if |error| <= 1000 then error else error[..1000]))
  }

  function Swept(t: Runs, provider: string, connection: string, source: string, live: set<string>, error: string,
                 now: real): Runs {
    map k | k in t ::
      if Orphaned(k, t[k], provider, connection, source, live)
      then Ended(t[k], error, now) else t[k]
  }

  /** After the sweep a source is busy for a graph exactly when one of the runs said to be live is still
      active there; so a crashed run can never block the next one. */
  lemma SweptIsBusyIff(t: Runs, scope: Scope, live: set<string>, error: string, now: real)
    requires forall k :: k in t ==> k.0 == t[k].scope.provider
    ensures Busy(Swept(t, scope.provider, scope.connection, scope.source, live, error, now), scope) <==>
      exists k :: k in t && Active(t[k]) && t[k].scope == scope && k.1 in live
  {
    var t' := Swept(t, scope.provider, scope.connection, scope.source, live, error, now);
    if Busy(t', scope) {
      var k :| k in t' && Active(t'[k]) && t'[k].scope == scope;
      assert k in t && Active(t[k]) && t[k].scope == scope && k.1 in live;
    }
    if k :| k in t && Active(t[k]) && t[k].scope == scope && k.1 in live {
      assert t'[k] == t[k];
    }
  }

  class Store {
    const provider: string
    var states: States
    var runs: Runs
    var sources: Sources

    /** Every run of this provider's rows is filed under its provider, and the index holds. */
    ghost predicate Valid() reads this {
      OneActive(runs) && forall k :: k in runs ==> k.0 == runs[k].scope.provider
    }

    constructor (provider: string)
      ensures Valid() && this.provider == provider && states == map[] && runs == map[] && sources == map[]
    {
      this.provider := provider;
      states, runs, sources := map[], map[], map[];
    }

    /** False when the new token's hash is already there. */
    method CreateState(stateHash: string, sessionHash: string, ttl: real, now: real) returns (ok: bool)
      modifies this`states
      ensures states == Apply(old(states), Create((provider, stateHash), sessionHash, ttl, now))
      ensures ok <==> Inserts(old(states), Create((provider, stateHash), sessionHash, ttl, now), (provider, stateHash))
      ensures !ok <==> (provider, stateHash) in old(states) && old(states)[(provider, stateHash)].expiresAt >= now
      ensures ok ==>
        && (provider, stateHash) in states
        && states[(provider, stateHash)].sessionHash == sessionHash
        && states[(provider, stateHash)].expiresAt == now + ttl
      ensures forall k :: k in old(states) && (k.0 != provider || old(states)[k].expiresAt >= now || !ok) ==>
        k in states && states[k] == old(states)[k]
    {
      var before := states;
      states := map k | k in states && !(k.0 == provider && states[k].expiresAt < now) :: states[k];
      if (provider, stateHash) in states {
        states := before;
        return false;
      }
      states := states[(provider, stateHash) := StateRow(sessionHash, now + ttl)];
      ok := true;
    }

    method ConsumeState(stateHash: string, now: real) returns (session: Option<string>)
      modifies this`states
      ensures states == Apply(old(states), Consume((provider, stateHash), now))
      ensures session == Redeemed(old(states), (provider, stateHash), now)
      ensures session.Some? <==>
        (provider, stateHash) in old(states) && now <= old(states)[(provider, stateHash)].expiresAt
      ensures session.Some? ==> session.value == old(states)[(provider, stateHash)].sessionHash
      ensures (provider, stateHash) !in states
    {
      var key := (provider, stateHash);
      if key !in states {
        return None;
      }
      var row := states[key];
      states := states - {key};
      session := if row.expiresAt >= now then Some(row.sessionHash) else None;
    }

    /** INSERT ... ON CONFLICT DO UPDATE: what is known of the last sync stays. */
    method SaveSource(connection: string, source: string, name: string, groupId: string, config: string)
      modifies this`sources
      ensures var k := (provider, connection, source);
        sources == old(sources)[k :=
          if k in old(sources)
            then Source(name, groupId, config, old(sources)[k].lastSyncAt, old(sources)[k].lastSyncError)
          else Source(name, groupId, config, None, None)]
    {
      var k := (provider, connection, source);
      if k in sources {
        sources := sources[k := sources[k].(name := name, groupId := groupId, config := config)];
      } else {
        sources := sources[k := Source(name, groupId, config, None, None)];
      }
    }

    /** False is the RuntimeError: the run id is taken, or the source is already syncing into this graph. */
    method CreateRun(runId: string, connection: string, source: string, graph: string, now: real) returns (ok: bool)
      requires Valid()
      modifies this`runs
      ensures Valid()
      ensures var scope := Scope(provider, connection, source, graph);
        && (ok <==> (provider, runId) !in old(runs) && !Busy(old(runs), scope))
        && runs == if ok then old(runs)[(provider, runId) := SyncRun(scope, Queued, now, None, None, None)]
          else old(runs)
      ensures !ok <==> (provider, runId) in old(runs) || exists k ::
        k in old(runs) && old(runs)[k].status in {Queued, Running} &&
        old(runs)[k].scope == Scope(provider, connection, source, graph)
      ensures ok ==> runs[(provider, runId)].startedAt == now && runs[(provider, runId)].status == Queued
    {
      var scope := Scope(provider, connection, source, graph);
      ok := (provider, runId) !in runs && !exists k :: k in runs && Active(runs[k]) && runs[k].scope == scope;
      if ok {
        runs := runs[(provider, runId) := SyncRun(scope, Queued, now, None, None, None)];
      }
    }

    method NoteSync(r: SyncRun, finished: Option<real>, error: Option<string>)
      requires finished.Some?
      modifies this`sources
      ensures sources == Noted(old(sources), r, provider, finished, error)
    {
      var source := (provider, r.scope.connection, r.scope.source);
      if source in sources {
        sources := sources[source := sources[source].(lastSyncAt := finished, lastSyncError := error)];
      }
    }

    /** False when the update would make a second active run: the index refuses it. A run that ends is noted
        on its source. */
    method SetRun(runId: string, status: RunStatus, result: Option<string>, error: Option<string>, now: real)
      returns (ok: bool)
      requires Valid()
      modifies this`runs, this`sources
      ensures Valid()
      ensures var k := (provider, runId);
        && (ok <==> !(k in old(runs) && (status == Queued || status == Running) && Blocked(old(runs), k)))
        && (if ok && k in old(runs) then
              var row := old(runs)[k].(status := status, finishedAt := Finished(status, now), result := result,
                error := error);
              runs == old(runs)[k := row] && sources == Noted(old(sources), row, provider, Finished(status, now), error)
            else runs == old(runs) && sources == old(sources))
      ensures ok && (provider, runId) in runs ==>
        var row := runs[(provider, runId)];
        var k := (provider, row.scope.connection, row.scope.source);
        && row.status == status && row.result == result && row.error == error
        && row.finishedAt == (if status in {Completed, Failed} then Some(now) else None)
        && (status in {Completed, Failed} && k in sources ==>
              sources[k].lastSyncAt == Some(now) && sources[k].lastSyncError == error)
    {
      var k := (provider, runId);
      if k !in runs {
        return true;
      }
      var finished := if status == Completed || status == Failed then Some(now) else None;
      var row := runs[k].(status := status, finishedAt := finished, result := result, error := error);
      if Active(row) && Blocked(runs, k) {
        return false;
      }
      UpdateKeepsIndex(runs, k, row);
      runs := runs[k := row];
      if finished.Some? { NoteSync(row, finished, error); }
      ok := true;
    }

    method FailOrphanedRuns(connection: string, source: string, live: set<string>, error: string, now: real)
      returns (count: nat)
      requires Valid()
      modifies this`runs
      ensures Valid()
      ensures runs == Swept(old(runs), provider, connection, source, live, error, now)
      ensures count == |set k | k in old(runs) && Orphaned(k, old(runs)[k], provider, connection, source, live)|
      ensures forall k :: k in old(runs) ==>
        var was, row := old(runs)[k], runs[k];
        if k.0 == provider && was.scope.connection == connection && was.scope.source == source &&
           was.status in {Queued, Running} && k.1 !in live
        then
          && row.status == Failed && row.finishedAt == Some(now) && row.error == Some(row.error.value)
          && row.error.value == (if |error| > 1000 then error[..1000] else error)
          && row.scope == was.scope && row.startedAt == was.startedAt && row.result == was.result
        else row == was
    {
      var stale := set k | k in runs && Orphaned(k, runs[k], provider, connection, source, live);
      count := |stale|;
      var before := runs;
      var todo := stale;
      while todo != {}
        invariant todo <= stale <= before.Keys && runs.Keys == before.Keys
        invariant forall k :: k in runs ==>
          runs[k] == (if k in stale && k !in todo then Ended(before[k], error, now) else before[k])
        decreases todo
      {
        var k :| k in todo;
        var cut := if |error| <= 1000 then error else error[..1000];
        runs := runs[k := runs[k].(status := Failed, finishedAt := Some(now), error := Some(cut))];
        todo := todo - {k};
      }
      assert runs == Swept(before, provider, connection, source, live, error, now);
    }
  }
}

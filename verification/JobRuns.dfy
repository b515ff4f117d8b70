/** Many workers over one job table: every interleaving of claims (both backends), heartbeats,
    completions, failures, crashes and aborted transactions. A worker is one run_worker process:
    it has a unique id and holds at most one claimed job at a time. */
module JobRuns {
  import opened Options
  import opened Jobs

  datatype WorkerState = Idle | Holding(id: string, snapshot: Job) | Stopped

  /** A row locked by an open Postgres claim, and the row everyone else still sees. */
  datatype Lock = Lock(owner: string, before: Job)

  /** `open` maps a worker with an open claim transaction to the job it has leased in it. */
  datatype System = System(
    rows: Table, workers: map<string, WorkerState>, locks: map<string, Lock>, open: map<string, Option<string>>)

  const EMPTY := System(map[], map[], map[], map[])

  datatype Event =
    | Enqueue(id: string, provider: string, payload: string, maxAttempts: int, now: real)
    | Start(w: string)
    | Claim(w: string, now: real, lease: real, choice: Option<string>)
    | PgRecover(w: string, now: real, picked: set<string>)
    | PgLease(w: string, now: real, lease: real, id: string)
    | PgCommit(w: string)
    | PgAbort(w: string)
    | Heartbeat(w: string, now: real, lease: real)
    | Complete(w: string, now: real)
    | Fail(w: string, now: real, error: string, retryAfter: Option<real>)
    | Crash(w: string)

  // ---------------------------------------------------------------- transitions

  /** What get() and every other transaction read: uncommitted changes are invisible. */
  function Visible(s: System, id: string): Job
    requires id in s.rows
  {
    if id in s.locks then s.locks[id].before else s.rows[id]
  }

  predicate IsIdle(s: System, w: string) {
    w in s.workers && s.workers[w] == Idle
  }

  predicate IsHolding(s: System, w: string) {
    w in s.workers && s.workers[w].Holding?
  }

  /** UPDATE ... WHERE lease_owner=? waits while the row it would match is locked. */
  predicate CanWrite(s: System, w: string) {
    IsHolding(s, w) &&
    var id := s.workers[w].id;
    id in s.rows && id in s.locks ==> !LeasedBy(Visible(s, id), w)
  }

  predicate Matches(s: System, w: string, id: string) {
    id in s.rows && id !in s.locks && LeasedBy(s.rows[id], w)
  }

  ghost predicate Enabled(s: System, e: Event) {
    match e
    case Enqueue(id, _, _, _, _) => id !in s.rows
    case Start(w) => w !in s.workers
    case Claim(w, now, _, choice) =>
      // BEGIN IMMEDIATE: no other claim is in progress
      && IsIdle(s, w) && s.locks == map[] && s.open == map[]
      && var t := RecoverIn(s.rows, s.rows.Keys, now);
         if choice.None? then NoneClaimable(t, t.Keys, now) else IsFirst(t, t.Keys, now, choice.value)
    case PgRecover(w, now, picked) =>
      // SKIP LOCKED may pass over any row, never take a locked one
      && IsIdle(s, w) && w !in s.open
      && forall id :: id in picked ==> id in s.rows && id !in s.locks && Expired(s.rows[id], now)
    case PgLease(w, now, _, id) =>
      && w in s.open && s.open[w] == None
      && id in s.rows && (id in s.locks ==> s.locks[id].owner == w) && Claimable(s.rows[id], now)
    case PgCommit(w) => w in s.open
    case PgAbort(w) => w in s.open
    case Heartbeat(w, _, _) => CanWrite(s, w)
    case Complete(w, _) => CanWrite(s, w)
    case Fail(w, _, _, _) => CanWrite(s, w)
    case Crash(w) => w in s.workers && w !in s.open
  }

  function Unlock(s: System, w: string): map<string, Lock> {
    map id | id in s.locks && s.locks[id].owner != w :: s.locks[id]
  }

  function Apply(s: System, e: Event): System
    requires Enabled(s, e)
  {
    match e
    case Enqueue(id, provider, payload, maxAttempts, now) =>
      s.(rows := s.rows[id := NewJob(provider, payload, maxAttempts, now)])
    case Start(w) => s.(workers := s.workers[w := Idle])
    case Claim(w, now, lease, choice) => (
      var t := RecoverIn(s.rows, s.rows.Keys, now);
      match choice
      case None => s.(rows := t)
      case Some(id) =>
        var job := Claimed(t[id], w, now + lease, now);
        s.(rows := t[id := job], workers := s.workers[w := Holding(id, job)]))
    case PgRecover(w, now, picked) =>
      s.(rows := RecoverIn(s.rows, picked, now),
         locks := map id | id in s.locks.Keys + picked :: if id in s.locks then s.locks[id] else Lock(w, s.rows[id]),
         open := s.open[w := None])
    case PgLease(w, now, lease, id) =>
      s.(rows := s.rows[id := Claimed(s.rows[id], w, now + lease, now)],
         locks := if id in s.locks then s.locks else s.locks[id := Lock(w, s.rows[id])],
         open := s.open[w := Some(id)])
    case PgCommit(w) =>
      s.(locks := Unlock(s, w),
         open := s.open - {w},
         workers := match s.open[w]
                    case None => s.workers
                    case Some(id) => if id in s.rows then s.workers[w := Holding(id, s.rows[id])] else s.workers)
    case PgAbort(w) =>
      s.(rows := map id | id in s.rows ::
                   if id in s.locks && s.locks[id].owner == w then s.locks[id].before else s.rows[id],
         locks := Unlock(s, w),
         open := s.open - {w},
         workers := s.workers[w := Stopped])
    case Heartbeat(w, now, lease) =>
      var id := s.workers[w].id;
      if Matches(s, w, id) && s.rows[id].status == Running
      then s.(rows := s.rows[id := Renewed(s.rows[id], now + lease, now)])
      else s
    case Complete(w, now) =>
      var id := s.workers[w].id;
      var idle := s.(workers := s.workers[w := Idle]);
      if Matches(s, w, id) then idle.(rows := s.rows[id := Finished(s.rows[id], now)]) else idle
    case Fail(w, now, error, retryAfter) =>
      var Holding(id, snapshot) := s.workers[w];
      var idle := s.(workers := s.workers[w := Idle]);
      var available := now + RetryDelay(snapshot.attempts, retryAfter);
      if Matches(s, w, id)
      then idle.(rows := s.rows[id := Failed(s.rows[id], FailStatus(snapshot), available, now, error)])
      else idle
    case Crash(w) => s.(workers := s.workers[w := Stopped])
  }

  // ---------------------------------------------------------------- the invariant

  /** Lease fields are set exactly while running; attempts stay within the budget;
      a waiting job is claimable as soon as it is due, unless it was enqueued with no budget at all. */
  predicate RowOk(j: Job) {
    && (j.status == Running <==> j.leaseOwner.Some?)
    && (j.status == Running <==> j.leaseExpiresAt.Some?)
    && (j.maxAttempts >= 1 ==> j.attempts <= j.maxAttempts)
    && (j.status in {Queued, Retry} && j.maxAttempts >= 1 ==> j.attempts < j.maxAttempts)
    && (j.maxAttempts < 1 ==> j.status == Queued && j.attempts == 0)
  }

  /** The lease holder is the worker whose snapshot is this very claim, or it is gone. */
  predicate OwnerOk(s: System, id: string, j: Job) {
    j.leaseOwner.Some? ==>
      var w := j.leaseOwner.value;
      && w in s.workers && w !in s.open
      && (s.workers[w].Holding? ==>
            && s.workers[w].id == id
            && s.workers[w].snapshot.attempts == j.attempts
            && s.workers[w].snapshot.maxAttempts == j.maxAttempts)
      && s.workers[w] != Idle
  }

  predicate LockOk(s: System, id: string)
    requires id in s.locks
  {
    var Lock(w, before) := s.locks[id];
    && id in s.rows && w in s.open && RowOk(before) && !Terminal(before) && OwnerOk(s, id, before)
    && s.rows[id].maxAttempts == before.maxAttempts
    && if s.open[w] == Some(id)
       then s.rows[id].leaseOwner == Some(w) && s.rows[id].attempts == before.attempts + 1
       else s.rows[id].leaseOwner == None && s.rows[id].attempts == before.attempts
  }

  predicate LocalOk(s: System, id: string) {
    && (id in s.rows ==> RowOk(s.rows[id]))
    && (id in s.rows && id !in s.locks ==> OwnerOk(s, id, s.rows[id]))
    && (id in s.locks ==> LockOk(s, id))
  }

  /** A snapshot is a claim already made; a job leased in an open claim is locked by it. */
  predicate WorkerOk(s: System, w: string) {
    && (w in s.open ==>
          && IsIdle(s, w)
          && (s.open[w].Some? ==> s.open[w].value in s.locks && s.locks[s.open[w].value].owner == w))
    && (IsHolding(s, w) ==>
          && s.workers[w].id in s.rows
          && s.workers[w].snapshot.attempts <= Visible(s, s.workers[w].id).attempts)
  }

  /** The attempt number tells two claims of one job apart. */
  predicate TokenOk(s: System, v: string, w: string) {
    IsHolding(s, v) && IsHolding(s, w) && v != w && s.workers[v].id == s.workers[w].id ==>
      s.workers[v].snapshot.attempts != s.workers[w].snapshot.attempts
  }

  ghost predicate Inv(s: System) {
    && (forall id :: LocalOk(s, id))
    && (forall w :: WorkerOk(s, w))
    && (forall v, w :: TokenOk(s, v, w))
  }

  predicate IsTxnEvent(e: Event) {
    e.PgRecover? || e.PgLease? || e.PgCommit? || e.PgAbort?
  }

  lemma ClaimKeepsLocal(s: System, e: Event, id: string)
    requires Inv(s) && Enabled(s, e) && e.Claim?
    ensures LocalOk(Apply(s, e), id)
  {
    assert LocalOk(s, id) && WorkerOk(s, e.w);
  }

  lemma RecoverKeepsLocal(s: System, e: Event, id: string)
    requires Inv(s) && Enabled(s, e) && e.PgRecover?
    ensures LocalOk(Apply(s, e), id)
  {
    assert LocalOk(s, id) && WorkerOk(s, e.w);
  }

  lemma LeaseKeepsLocal(s: System, e: Event, id: string)
    requires Inv(s) && Enabled(s, e) && e.PgLease?
    ensures LocalOk(Apply(s, e), id)
  {
    assert LocalOk(s, id) && WorkerOk(s, e.w);
  }

  lemma UnlockKeepsLocal(s: System, e: Event, id: string)
    requires Inv(s) && Enabled(s, e) && (e.PgCommit? || e.PgAbort?)
    ensures LocalOk(Apply(s, e), id)
  {
    assert LocalOk(s, id) && WorkerOk(s, e.w);
  }

  lemma CompleteKeepsLocal(s: System, e: Event, id: string)
    requires Inv(s) && Enabled(s, e) && e.Complete?
    ensures LocalOk(Apply(s, e), id)
  {
    assert LocalOk(s, id) && WorkerOk(s, e.w);
  }

  lemma FailKeepsLocal(s: System, e: Event, id: string)
    requires Inv(s) && Enabled(s, e) && e.Fail?
    ensures LocalOk(Apply(s, e), id)
  {
    assert LocalOk(s, id) && WorkerOk(s, e.w);
  }

  lemma LocalStep(s: System, e: Event, id: string)
    requires Inv(s) && Enabled(s, e)
    ensures LocalOk(Apply(s, e), id)
  {
    assert LocalOk(s, id);
    match e {
      case Claim(_, _, _, _) => ClaimKeepsLocal(s, e, id);
      case PgRecover(_, _, _) => RecoverKeepsLocal(s, e, id);
      case PgLease(_, _, _, _) => LeaseKeepsLocal(s, e, id);
      case PgCommit(_) => UnlockKeepsLocal(s, e, id);
      case PgAbort(_) => UnlockKeepsLocal(s, e, id);
      case Complete(_, _) => CompleteKeepsLocal(s, e, id);
      case Fail(_, _, _, _) => FailKeepsLocal(s, e, id);
      case _ =>
    }
  }

  lemma TxnKeepsWorker(s: System, e: Event, v: string)
    requires Inv(s) && Enabled(s, e) && IsTxnEvent(e)
    ensures WorkerOk(Apply(s, e), v)
  {
    assert WorkerOk(s, v) && WorkerOk(s, e.w);
    if IsHolding(s, v) { assert LocalOk(s, s.workers[v].id); }
    if e.PgCommit? && s.open[e.w].Some? { assert LocalOk(s, s.open[e.w].value); }
  }

  lemma ClaimKeepsWorker(s: System, e: Event, v: string)
    requires Inv(s) && Enabled(s, e) && (e.Claim? || e.Complete? || e.Fail?)
    ensures WorkerOk(Apply(s, e), v)
  {
    assert WorkerOk(s, v) && WorkerOk(s, e.w);
  }

  lemma WorkerStep(s: System, e: Event, v: string)
    requires Inv(s) && Enabled(s, e)
    ensures WorkerOk(Apply(s, e), v)
  {
    if IsTxnEvent(e) {
      TxnKeepsWorker(s, e, v);
    } else if e.Claim? || e.Complete? || e.Fail? {
      ClaimKeepsWorker(s, e, v);
    } else {
      assert WorkerOk(s, v);
    }
  }

  lemma TokenStep(s: System, e: Event, v: string, u: string)
    requires Inv(s) && Enabled(s, e)
    ensures TokenOk(Apply(s, e), v, u)
  {
    assert TokenOk(s, v, u) && WorkerOk(s, v) && WorkerOk(s, u);
    if e.PgCommit? && s.open[e.w].Some? { assert WorkerOk(s, e.w) && LocalOk(s, s.open[e.w].value); }
  }

  lemma StepKeepsInv(s: System, e: Event)
    requires Inv(s) && Enabled(s, e)
    ensures Inv(Apply(s, e))
  {
    forall id ensures LocalOk(Apply(s, e), id) { LocalStep(s, e, id); }
    forall w ensures WorkerOk(Apply(s, e), w) { WorkerStep(s, e, w); }
    forall v, w ensures TokenOk(Apply(s, e), v, w) { TokenStep(s, e, v, w); }
  }

  // ---------------------------------------------------------------- whole runs

  ghost predicate ValidRun(s: System, events: seq<Event>)
    decreases |events|
  {
    events == [] || (Enabled(s, events[0]) && ValidRun(Apply(s, events[0]), events[1..]))
  }

  ghost function Run(s: System, events: seq<Event>): System
    requires ValidRun(s, events)
    decreases |events|
  {
    if events == [] then s else Run(Apply(s, events[0]), events[1..])
  }

  /** Safety over every interleaving, from the empty queue. */
  lemma {:induction false} RunKeepsInv(s: System, events: seq<Event>)
    requires Inv(s) && ValidRun(s, events)
    ensures Inv(Run(s, events))
    decreases |events|
  {
    if events != [] {
      StepKeepsInv(s, events[0]);
      RunKeepsInv(Apply(s, events[0]), events[1..]);
    }
  }

  lemma TerminalStep(s: System, e: Event, id: string)
    requires Inv(s) && Enabled(s, e) && id in s.rows && Terminal(Visible(s, id))
    ensures id in Apply(s, e).rows && Visible(Apply(s, e), id) == Visible(s, id)
  {
    assert LocalOk(s, id);
  }

  /** completed and dead are absorbing: no later event of any worker changes the row at all. */
  lemma {:induction false} TerminalIsAbsorbing(s: System, events: seq<Event>, id: string)
    requires Inv(s) && ValidRun(s, events) && id in s.rows && Terminal(Visible(s, id))
    ensures id in Run(s, events).rows && Visible(Run(s, events), id) == Visible(s, id)
    decreases |events|
  {
    if events != [] {
      StepKeepsInv(s, events[0]);
      TerminalStep(s, events[0], id);
      TerminalIsAbsorbing(Apply(s, events[0]), events[1..], id);
    }
  }

  // ---------------------------------------------------------------- bounded work

  /** A claim that took effect: SQLite's atomic one, or a committed Postgres one. */
  predicate Leases(s: System, e: Event, id: string) {
    (e.Claim? && e.choice == Some(id)) || (e.PgCommit? && e.w in s.open && s.open[e.w] == Some(id))
  }

  ghost function LeaseCount(s: System, events: seq<Event>, id: string): nat
    requires ValidRun(s, events)
    decreases |events|
  {
    if events == [] then 0
    else (if Leases(s, events[0], id) then 1 else 0) + LeaseCount(Apply(s, events[0]), events[1..], id)
  }

  lemma AttemptsStep(s: System, e: Event, id: string)
    requires Inv(s) && Enabled(s, e)
    ensures id in s.rows ==>
      && id in Apply(s, e).rows && Apply(s, e).rows[id].maxAttempts == s.rows[id].maxAttempts
      && Visible(Apply(s, e), id).attempts == Visible(s, id).attempts + if Leases(s, e, id) then 1 else 0
    ensures id !in s.rows ==>
      && !Leases(s, e, id)
      && (id in Apply(s, e).rows ==> Visible(Apply(s, e), id).attempts == 0)
  {
    assert LocalOk(s, id);
    if IsTxnEvent(e) {
      TxnAttempts(s, e, id);
    } else if e.Complete? || e.Fail? {
      FinishAttempts(s, e, id);
    }
  }

  lemma TxnAttempts(s: System, e: Event, id: string)
    requires Inv(s) && Enabled(s, e) && IsTxnEvent(e)
    ensures id in s.rows <==> id in Apply(s, e).rows
    ensures id in s.rows ==>
      && Apply(s, e).rows[id].maxAttempts == s.rows[id].maxAttempts
      && Visible(Apply(s, e), id).attempts == Visible(s, id).attempts + if Leases(s, e, id) then 1 else 0
    ensures id !in s.rows ==> !Leases(s, e, id)
  {
    assert LocalOk(s, id) && WorkerOk(s, e.w);
  }

  lemma FinishAttempts(s: System, e: Event, id: string)
    requires Inv(s) && Enabled(s, e) && (e.Complete? || e.Fail?)
    ensures id in s.rows <==> id in Apply(s, e).rows
    ensures id in s.rows ==>
      && Apply(s, e).rows[id].maxAttempts == s.rows[id].maxAttempts
      && Visible(Apply(s, e), id).attempts == Visible(s, id).attempts
  {
  }

  lemma {:induction false} AttemptsCountLeases(s: System, events: seq<Event>, id: string)
    requires Inv(s) && ValidRun(s, events)
    ensures id in Run(s, events).rows ==>
      Visible(Run(s, events), id).attempts ==
        (if id in s.rows then Visible(s, id).attempts else 0) + LeaseCount(s, events, id)
    ensures id in s.rows ==> id in Run(s, events).rows
    ensures id !in Run(s, events).rows ==> LeaseCount(s, events, id) == 0
    decreases |events|
  {
    if events != [] {
      AttemptsStep(s, events[0], id);
      StepKeepsInv(s, events[0]);
      AttemptsCountLeases(Apply(s, events[0]), events[1..], id);
    }
  }

  lemma EmptyIsFine()
    ensures Inv(EMPTY)
  {
  }

  /** Every job is handed out exactly `attempts` times, and never more often than its budget:
      each claim uses up one unit of max_attempts - attempts, and nothing gives a unit back. */
  lemma WorkIsBounded(events: seq<Event>, id: string)
    requires ValidRun(EMPTY, events) && id in Run(EMPTY, events).rows
    ensures var j := Visible(Run(EMPTY, events), id);
      && j.attempts == LeaseCount(EMPTY, events, id)
      && LeaseCount(EMPTY, events, id) <= (if j.maxAttempts >= 1 then j.maxAttempts else 0)
  {
    EmptyIsFine();
    RunKeepsInv(EMPTY, events);
    AttemptsCountLeases(EMPTY, events, id);
    var s := Run(EMPTY, events);
    assert LocalOk(s, id);
    assert RowOk(Visible(s, id));
  }

  /** The attempts a job has left. */
  function Left(s: System, id: string): int
    requires id in s.rows
  {
    var j := Visible(s, id);
    if j.maxAttempts >= 1 then j.maxAttempts - j.attempts else 0
  }

  function Slack(s: System, ids: seq<string>): int
    requires forall k :: 0 <= k < |ids| ==> ids[k] in s.rows
  {
    if ids == [] then 0 else Slack(s, ids[..|ids| - 1]) + Left(s, ids[|ids| - 1])
  }

  ghost predicate LeasesOne(s: System, e: Event, ids: seq<string>) {
    exists k :: 0 <= k < |ids| && Leases(s, e, ids[k])
  }

  lemma LeftStep(s: System, e: Event, id: string)
    requires Inv(s) && Enabled(s, e) && id in s.rows
    ensures id in Apply(s, e).rows && Left(s, id) >= 0
    ensures Left(Apply(s, e), id) == Left(s, id) - if Leases(s, e, id) then 1 else 0
  {
    assert LocalOk(s, id);
    AttemptsStep(s, e, id);
    StepKeepsInv(s, e);
    assert LocalOk(Apply(s, e), id);
  }

  lemma LeasesOneSnoc(s: System, e: Event, ids: seq<string>)
    requires ids != []
    requires forall i, j :: 0 <= i < j < |ids| ==> ids[i] != ids[j]
    ensures var front, last := ids[..|ids| - 1], ids[|ids| - 1];
      && (LeasesOne(s, e, ids) <==> LeasesOne(s, e, front) || Leases(s, e, last))
      && !(LeasesOne(s, e, front) && Leases(s, e, last))
  {
    var front, last := ids[..|ids| - 1], ids[|ids| - 1];
    if k :| 0 <= k < |ids| && Leases(s, e, ids[k]) {
      if k < |front| { assert Leases(s, e, front[k]); }
    }
    if k :| 0 <= k < |front| && Leases(s, e, front[k]) {
      assert Leases(s, e, ids[k]) && ids[k] != last;
    }
  }

  /** A termination measure for any set of jobs: the attempts they have left are never negative, every claim
      that takes effect uses up exactly one, and no other event of any worker changes their number. */
  lemma {:induction false} EachClaimUsesOneAttempt(s: System, e: Event, ids: seq<string>)
    requires Inv(s) && Enabled(s, e) && forall k :: 0 <= k < |ids| ==> ids[k] in s.rows
    requires forall i, j :: 0 <= i < j < |ids| ==> ids[i] != ids[j]
    ensures forall k :: 0 <= k < |ids| ==> ids[k] in Apply(s, e).rows
    ensures Slack(Apply(s, e), ids) == Slack(s, ids) - (if LeasesOne(s, e, ids) then 1 else 0)
    ensures Slack(s, ids) >= 0
  {
    if ids != [] {
      LeasesOneSnoc(s, e, ids);
      EachClaimUsesOneAttempt(s, e, ids[..|ids| - 1]);
      LeftStep(s, e, ids[|ids| - 1]);
      var s' := Apply(s, e);
      forall k | 0 <= k < |ids| ensures ids[k] in s'.rows {
        if k < |ids| - 1 { assert ids[..|ids| - 1][k] in s'.rows; }
      }
    }
  }

  // ---------------------------------------------------------------- fencing

  /** The worker's own claim takes this job (on Postgres, in a transaction still open). */
  predicate LeasesTo(e: Event, w: string, id: string) {
    (e.Claim? && e.w == w && e.choice == Some(id)) || (e.PgLease? && e.w == w && e.id == id)
  }

  predicate ActsFor(e: Event, w: string) {
    (e.Heartbeat? || e.Complete? || e.Fail? || e.Crash? || e.PgAbort?) && e.w == w
  }

  /** Nobody's lease on this job, committed or not, names w. */
  predicate LostLease(s: System, w: string, id: string) {
    && (w in s.open ==> s.open[w] != Some(id))
    && (id in s.rows ==> !LeasedBy(s.rows[id], w) && !LeasedBy(Visible(s, id), w))
  }

  ghost predicate Fenced(s: System, events: seq<Event>, w: string, id: string)
    requires ValidRun(s, events)
    decreases |events|
  {
    events == [] ||
    (var s' := Apply(s, events[0]);
     && (ActsFor(events[0], w) && id in s.rows ==> id in s'.rows && Visible(s', id) == Visible(s, id))
     && Fenced(s', events[1..], w, id))
  }

  lemma LostLeaseTxnStep(s: System, e: Event, w: string, id: string)
    requires Inv(s) && Enabled(s, e) && IsTxnEvent(e) && LostLease(s, w, id) && !LeasesTo(e, w, id)
    ensures LostLease(Apply(s, e), w, id)
    ensures ActsFor(e, w) && id in s.rows ==> id in Apply(s, e).rows && Visible(Apply(s, e), id) == Visible(s, id)
  {
    assert LocalOk(s, id) && WorkerOk(s, e.w);
  }

  lemma LostLeaseStep(s: System, e: Event, w: string, id: string)
    requires Inv(s) && Enabled(s, e) && LostLease(s, w, id) && !LeasesTo(e, w, id)
    ensures LostLease(Apply(s, e), w, id)
    ensures ActsFor(e, w) && id in s.rows ==> id in Apply(s, e).rows && Visible(Apply(s, e), id) == Visible(s, id)
  {
    if IsTxnEvent(e) {
      LostLeaseTxnStep(s, e, w, id);
    } else {
      assert LocalOk(s, id);
    }
  }

  /** A worker that lost its lease cannot change the job again by any heartbeat, completion, failure, crash or
      abort, whoever holds the job meanwhile and whatever else the worker claims, until it leases this very
      job again. */
  lemma {:induction false} StaleWorkerIsFenced(s: System, events: seq<Event>, w: string, id: string)
    requires Inv(s) && ValidRun(s, events) && LostLease(s, w, id)
    requires forall i :: 0 <= i < |events| ==> !LeasesTo(events[i], w, id)
    ensures Fenced(s, events, w, id)
    decreases |events|
  {
    if events != [] {
      LostLeaseStep(s, events[0], w, id);
      StepKeepsInv(s, events[0]);
      StaleWorkerIsFenced(Apply(s, events[0]), events[1..], w, id);
    }
  }

  /** SQLite: a claim that recovers an expired job takes the lease from its worker. */
  lemma ClaimTakesLease(s: System, e: Event, w: string, id: string)
    requires Inv(s) && Enabled(s, e) && e.Claim?
    requires id in s.rows && LeasedBy(s.rows[id], w) && Expired(s.rows[id], e.now)
    ensures LostLease(Apply(s, e), w, id)
  {
    assert LocalOk(s, id);
  }

  /** Postgres: a claim transaction that recovered the job, and perhaps leased it, takes the lease from its
      worker when it commits; until then nobody else sees the recovery. */
  lemma CommitTakesLease(s: System, e: Event, w: string, id: string)
    requires Inv(s) && Enabled(s, e) && e.PgCommit?
    requires id in s.rows && id in s.locks && s.locks[id].owner == e.w && LeasedBy(Visible(s, id), w)
    ensures LostLease(Apply(s, e), w, id)
  {
    assert LocalOk(s, id);
  }

  /** ... which is what recovering and committing amount to, with nothing in between. */
  lemma RecoverTakesLease(s: System, recover: Event, w: string, id: string)
    requires Inv(s) && Enabled(s, recover) && recover.PgRecover?
    requires id in recover.picked && LeasedBy(s.rows[id], w)
    ensures var s' := Apply(s, recover);
      && id in s'.rows && LeasedBy(Visible(s', id), w) && Enabled(s', PgCommit(recover.w))
      && LostLease(Apply(s', PgCommit(recover.w)), w, id)
  {
    StepKeepsInv(s, recover);
    CommitTakesLease(Apply(s, recover), PgCommit(recover.w), w, id);
  }

  /** Two workers holding one job hold different claims of it, and at most one holds the lease. */
  lemma AtMostOneHolder(events: seq<Event>, v: string, w: string)
    requires ValidRun(EMPTY, events)
    requires var s := Run(EMPTY, events);
      IsHolding(s, v) && IsHolding(s, w) && v != w && s.workers[v].id == s.workers[w].id
    ensures var s := Run(EMPTY, events);
      var id := s.workers[v].id;
      && s.workers[v].snapshot.attempts != s.workers[w].snapshot.attempts
      && id in s.rows
      && (LeasedBy(Visible(s, id), w) ==>
            s.workers[v].snapshot.attempts < s.workers[w].snapshot.attempts == Visible(s, id).attempts)
  {
    EmptyIsFine();
    RunKeepsInv(EMPTY, events);
    var s := Run(EMPTY, events);
    var id := s.workers[v].id;
    assert LocalOk(s, id) && WorkerOk(s, v) && WorkerOk(s, w) && TokenOk(s, v, w);
  }

  /** fail() decides from its snapshot; wherever it takes effect the snapshot is the row's own claim. */
  lemma FailDecidesLikeTheRow(s: System, w: string)
    requires Inv(s) && IsHolding(s, w) && Matches(s, w, s.workers[w].id)
    ensures var j := s.rows[s.workers[w].id];
      FailStatus(s.workers[w].snapshot) == Dead <==> j.attempts >= j.maxAttempts
  {
    assert LocalOk(s, s.workers[w].id);
  }

  // ---------------------------------------------------------------- what a lease is worth

  /** A running row that nobody has locked is changed by its holder alone, unless its lease has ended. */
  lemma LiveLeaseStep(s: System, e: Event, id: string)
    requires Inv(s) && Enabled(s, e) && id in s.rows && id !in s.locks
    requires s.rows[id].status == Running && s.rows[id].leaseExpiresAt.Some?
    requires e.Claim? || e.PgRecover? ==> e.now <= s.rows[id].leaseExpiresAt.value
    requires e.Heartbeat? || e.Complete? || e.Fail? ==> s.rows[id].leaseOwner != Some(e.w)
    ensures id in Apply(s, e).rows && id !in Apply(s, e).locks && Apply(s, e).rows[id] == s.rows[id]
  {
    assert LocalOk(s, id);
  }

  /** While a transaction has the row locked, only its own commit changes what others see. */
  lemma LockedStep(s: System, e: Event, id: string)
    requires Inv(s) && Enabled(s, e) && id in s.rows && id in s.locks
    requires !(e.PgCommit? && e.w == s.locks[id].owner)
    ensures id in Apply(s, e).rows && Visible(Apply(s, e), id) == Visible(s, id)
  {
    assert LocalOk(s, id);
  }

  /** The row was taken for recovery by this event, after its lease had ended. */
  predicate RecoversLate(e: Event, w: string, id: string, row: Job) {
    e.PgRecover? && e.w == w && id in e.picked && row.leaseExpiresAt.Some? && row.leaseExpiresAt.value < e.now
  }

  lemma LockStep(s: System, e: Event, id: string)
    requires Inv(s) && Enabled(s, e)
    ensures var s' := Apply(s, e);
      id in s'.locks && s'.locks[id].before.status == Running ==>
        (id in s.locks && s.locks[id] == s'.locks[id]) || RecoversLate(e, s'.locks[id].owner, id, s'.locks[id].before)
  {
    assert LocalOk(s, id);
  }

  /** A running row is only ever locked by a transaction that recovered it after its lease had ended. */
  lemma {:induction false} LockedLate(s: System, events: seq<Event>, id: string)
    requires Inv(s) && ValidRun(s, events)
    ensures var s' := Run(s, events);
      id in s'.locks && s'.locks[id].before.status == Running ==>
        || (id in s.locks && s.locks[id] == s'.locks[id])
        || exists j :: 0 <= j < |events| && RecoversLate(events[j], s'.locks[id].owner, id, s'.locks[id].before)
    decreases |events|
  {
    if events != [] {
      var next, rest := Apply(s, events[0]), events[1..];
      LockStep(s, events[0], id);
      StepKeepsInv(s, events[0]);
      LockedLate(next, rest, id);
      var s' := Run(next, rest);
      if id in s'.locks {
        var Lock(w, row) := s'.locks[id];
        if j :| 0 <= j < |rest| && RecoversLate(rest[j], w, id, row) { assert RecoversLate(events[j + 1], w, id, row); }
      }
    }
  }

  /** Mutual exclusion over every run: a running job is changed by the worker that holds its lease, by a claim
      made after the lease has ended, or by the commit of a transaction that recovered it after that - and by
      nothing else. */
  lemma LeaseIsExclusive(events: seq<Event>, e: Event, id: string)
    requires ValidRun(EMPTY, events) && Enabled(Run(EMPTY, events), e) && id in Run(EMPTY, events).rows
    requires Visible(Run(EMPTY, events), id).status == Running
    ensures id in Apply(Run(EMPTY, events), e).rows
    ensures var row := Visible(Run(EMPTY, events), id);
      && row.leaseOwner.Some? && row.leaseExpiresAt.Some?
      && (Visible(Apply(Run(EMPTY, events), e), id) != row ==>
            || ((e.Heartbeat? || e.Complete? || e.Fail?) && row.leaseOwner == Some(e.w))
            || (e.Claim? && e.now > row.leaseExpiresAt.value)
            || (e.PgCommit? && exists j ::
                  && 0 <= j < |events| && events[j].PgRecover? && events[j].w == e.w
                  && id in events[j].picked && events[j].now > row.leaseExpiresAt.value))
  {
    EmptyIsFine();
    RunKeepsInv(EMPTY, events);
    LockedLate(EMPTY, events, id);
    var s := Run(EMPTY, events);
    assert LocalOk(s, id);
    StepKeepsRow(s, e, id);
    var row := Visible(s, id);
    if id in s.locks {
      if e.PgCommit? && e.w == s.locks[id].owner {
        var j :| 0 <= j < |events| && RecoversLate(events[j], e.w, id, row);
        assert events[j].PgRecover?;
      } else {
        LockedStep(s, e, id);
      }
    } else if e.PgRecover? {
      RecoverIsInvisible(s, e, id);
    } else if !((e.Claim? && e.now > row.leaseExpiresAt.value) ||
                ((e.Heartbeat? || e.Complete? || e.Fail?) && row.leaseOwner == Some(e.w))) {
      LiveLeaseStep(s, e, id);
    }
  }

  lemma RecoverIsInvisible(s: System, e: Event, id: string)
    requires Inv(s) && Enabled(s, e) && e.PgRecover? && id in s.rows && id !in s.locks
    ensures id in Apply(s, e).rows && Visible(Apply(s, e), id) == s.rows[id]
  {
  }

  lemma StepKeepsRow(s: System, e: Event, id: string)
    requires Inv(s) && Enabled(s, e) && id in s.rows
    ensures id in Apply(s, e).rows
  {
    AttemptsStep(s, e, id);
  }

  /** The end of w's lease: each heartbeat moves it. */
  function Moved(end: real, e: Event, w: string): real {
    if e.Heartbeat? && e.w == w then e.now + e.lease else end
  }

  function LeaseEnd(end: real, events: seq<Event>, w: string): real
    decreases |events|
  {
    if events == [] then end else LeaseEnd(Moved(end, events[0], w), events[1..], w)
  }

  /** w holds the job, with a lease until `end`. */
  predicate Holds(s: System, w: string, id: string, attempt: nat, end: real) {
    && w in s.workers && s.workers[w].Holding? && s.workers[w].id == id
    && id in s.rows && id !in s.locks
    && s.rows[id].status == Running && s.rows[id].leaseOwner == Some(w)
    && s.rows[id].attempts == attempt && s.rows[id].leaseExpiresAt == Some(end)
  }

  lemma HolderStep(s: System, e: Event, w: string, id: string, attempt: nat, end: real)
    requires Inv(s) && Enabled(s, e) && Holds(s, w, id, attempt, end)
    requires !((e.Complete? || e.Fail? || e.Crash?) && e.w == w)
    requires e.Claim? || e.PgRecover? ==> e.now <= end
    ensures Holds(Apply(s, e), w, id, attempt, Moved(end, e, w))
  {
    assert WorkerOk(s, w);
    if e.Heartbeat? && e.w == w {
      assert LeasedBy(s.rows[id], w);
    } else {
      LiveLeaseStep(s, e, id);
      HolderStays(s, e, w);
    }
  }

  lemma HolderStays(s: System, e: Event, w: string)
    requires Inv(s) && Enabled(s, e) && w in s.workers && s.workers[w].Holding?
    requires !((e.Complete? || e.Fail? || e.Crash?) && e.w == w)
    ensures w in Apply(s, e).workers && Apply(s, e).workers[w] == s.workers[w]
  {
    assert WorkerOk(s, w) && (e.PgCommit? || e.PgAbort? ==> WorkerOk(s, e.w));
  }

  /** A worker that heartbeats before its lease ends keeps the job: as long as it neither finishes nor crashes and
      every claim of any worker comes before the lease - moved by its heartbeats - has ended, the row stays its own,
      under the same attempt, whatever all the others do. */
  lemma {:induction false} HolderKeepsJob(s: System, events: seq<Event>, w: string, id: string, attempt: nat, end: real)
    requires Inv(s) && ValidRun(s, events) && Holds(s, w, id, attempt, end)
    requires forall i :: 0 <= i < |events| ==>
      !((events[i].Complete? || events[i].Fail? || events[i].Crash?) && events[i].w == w)
    requires forall i :: 0 <= i < |events| && (events[i].Claim? || events[i].PgRecover?) ==>
      events[i].now <= LeaseEnd(end, events[..i], w)
    ensures Holds(Run(s, events), w, id, attempt, LeaseEnd(end, events, w))
    ensures var s' := Run(s, events);
      && id in s'.rows && id !in s'.locks && s'.rows[id].status == Running && s'.rows[id].leaseOwner == Some(w)
      && s'.rows[id].attempts == attempt && w in s'.workers && s'.workers[w].Holding? && s'.workers[w].id == id
    decreases |events|
  {
    if events != [] {
      var e, rest := events[0], events[1..];
      assert events[..0] == [] && LeaseEnd(end, events[..0], w) == end;
      HolderStep(s, e, w, id, attempt, end);
      StepKeepsInv(s, e);
      forall i | 0 <= i < |rest| ensures events[..i + 1][0] == e && events[..i + 1][1..] == rest[..i] { }
      forall i | 0 <= i < |rest| && (rest[i].Claim? || rest[i].PgRecover?)
        ensures rest[i].now <= LeaseEnd(Moved(end, e, w), rest[..i], w)
      {
        assert rest[i] == events[i + 1];
      }
      HolderKeepsJob(Apply(s, e), rest, w, id, attempt, Moved(end, e, w));
    }
  }

  /** That is how a claim leaves its worker: holding the job until the lease it took ends. */
  lemma ClaimHolds(s: System, e: Event, id: string)
    requires Inv(s) && Enabled(s, e) && Leases(s, e, id)
    ensures id in s.rows && Visible(s, id).status != Completed && Visible(s, id).status != Dead
    ensures e.Claim? ==> Holds(Apply(s, e), e.w, id, Visible(s, id).attempts + 1, e.now + e.lease)
    ensures e.PgCommit? ==>
      && s.rows[id].leaseExpiresAt.Some?
      && Holds(Apply(s, e), e.w, id, Visible(s, id).attempts + 1, s.rows[id].leaseExpiresAt.value)
  {
    assert LocalOk(s, id) && WorkerOk(s, e.w);
  }

  // ---------------------------------------------------------------- what a delay is worth

  /** The row waits, and no open claim has recovered it. */
  predicate Waits(s: System, id: string, row: Job) {
    && id in s.rows && Visible(s, id) == row && (row.status == Queued || row.status == Retry)
    && (id in s.locks ==> s.locks[id].owner in s.open && s.open[s.locks[id].owner] == Some(id))
  }

  lemma WaitsStep(s: System, e: Event, id: string, row: Job)
    requires Inv(s) && Enabled(s, e) && Waits(s, id, row) && !Leases(s, e, id)
    ensures Waits(Apply(s, e), id, row)
  {
    assert LocalOk(s, id);
    if IsTxnEvent(e) {
      WaitsTxnStep(s, e, id, row);
    }
  }

  lemma WaitsTxnStep(s: System, e: Event, id: string, row: Job)
    requires Inv(s) && Enabled(s, e) && IsTxnEvent(e) && Waits(s, id, row) && !Leases(s, e, id)
    ensures Waits(Apply(s, e), id, row)
  {
    assert LocalOk(s, id);
  }

  lemma {:induction false} WaitsRun(s: System, events: seq<Event>, id: string, row: Job)
    requires Inv(s) && ValidRun(s, events) && Waits(s, id, row) && LeaseCount(s, events, id) == 0
    ensures Waits(Run(s, events), id, row)
    decreases |events|
  {
    if events != [] {
      WaitsStep(s, events[0], id, row);
      StepKeepsInv(s, events[0]);
      WaitsRun(Apply(s, events[0]), events[1..], id, row);
    }
  }

  /** The event hands the job out; on Postgres the transaction may yet be aborted. */
  predicate HandsOut(e: Event, id: string) {
    (e.Claim? && e.choice == Some(id)) || (e.PgLease? && e.id == id)
  }

  lemma NotBeforeAvailable(s: System, e: Event, id: string, row: Job)
    requires Inv(s) && Enabled(s, e) && Waits(s, id, row) && HandsOut(e, id)
    ensures e.now >= row.availableAt && row.attempts < row.maxAttempts
  {
    assert LocalOk(s, id);
  }

  /** A retry delay is really waited for: after a failure that leaves attempts to make, whatever all the workers do,
      nobody is handed the job before the delay has passed. */
  lemma RetryDelayIsWaitedFor(s: System, fail: Event, events: seq<Event>, next: Event, id: string)
    requires Inv(s) && Enabled(s, fail) && fail.Fail? && s.workers[fail.w].id == id
    requires id in s.rows && id !in s.locks && s.rows[id].leaseOwner == Some(fail.w)
    requires s.workers[fail.w].snapshot.attempts < s.workers[fail.w].snapshot.maxAttempts
    requires ValidRun(Apply(s, fail), events) && LeaseCount(Apply(s, fail), events, id) == 0
    requires Enabled(Run(Apply(s, fail), events), next) && HandsOut(next, id)
    ensures next.now >= fail.now + RetryDelay(s.workers[fail.w].snapshot.attempts, fail.retryAfter)
  {
    var failed := Apply(s, fail);
    StepKeepsInv(s, fail);
    RunKeepsInv(failed, events);
    WaitsRun(failed, events, id, failed.rows[id]);
    NotBeforeAvailable(Run(failed, events), next, id, failed.rows[id]);
  }

  /** A new job waits for nothing, and is handed out at no earlier time than it was enqueued at. */
  lemma NewJobIsAvailable(s: System, add: Event, events: seq<Event>, next: Event)
    requires Inv(s) && Enabled(s, add) && add.Enqueue?
    requires ValidRun(Apply(s, add), events) && LeaseCount(Apply(s, add), events, add.id) == 0
    requires Enabled(Run(Apply(s, add), events), next) && HandsOut(next, add.id)
    ensures next.now >= add.now && Visible(Run(Apply(s, add), events), add.id).availableAt == add.now
  {
    var added := Apply(s, add);
    assert LocalOk(s, add.id);
    StepKeepsInv(s, add);
    RunKeepsInv(added, events);
    WaitsRun(added, events, add.id, added.rows[add.id]);
    NotBeforeAvailable(Run(added, events), next, add.id, added.rows[add.id]);
  }

  // ---------------------------------------------------------------- nothing is parked

  predicate Due(s: System, now: real) {
    forall id :: id in s.rows ==>
      && s.rows[id].availableAt <= now
      && (s.rows[id].leaseExpiresAt.Some? ==> s.rows[id].leaseExpiresAt.value < now)
  }

  /** Once every delay and lease has run out, the recovery inside a claim leaves each job
      either claimable or finished for good - exactly when it was enqueued with max_attempts >= 1.
      With no budget it is parked: queued, and claimable at no time. */
  lemma NothingIsParked(s: System, now: real, id: string)
    requires Inv(s) && Due(s, now) && id in s.rows && s.locks == map[]
    ensures var j := RecoverIn(s.rows, s.rows.Keys, now)[id];
      && (s.rows[id].maxAttempts >= 1 <==> Terminal(j) || Claimable(j, now))
      && (s.rows[id].maxAttempts < 1 ==> j.status == Queued && forall later :: !Claimable(j, later))
  {
    assert LocalOk(s, id);
  }

  /** Enqueued with max_attempts 0 a job is queued, and no claim can ever take it. */
  lemma NoBudgetIsParked(id: string, provider: string, payload: string, now: real)
    ensures var events := [Enqueue(id, provider, payload, 0, now)];
      && ValidRun(EMPTY, events) && id in Run(EMPTY, events).rows
      && Run(EMPTY, events).rows[id].status == Queued && forall later :: !Claimable(Run(EMPTY, events).rows[id], later)
  {
    var events := [Enqueue(id, provider, payload, 0, now)];
    var s := Apply(EMPTY, events[0]);
    assert events[1..] == [] && ValidRun(s, []) && Run(s, []) == s;
    assert Run(EMPTY, events) == s;
  }
}

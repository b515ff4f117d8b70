/** The durable leased job queue: connectors/core/jobs.py.
    Timestamps are points on one clock; IsoTime proves that comparing the stored text decides alike. */
module Jobs {
  import opened Arith
  import opened Options

  datatype Status = Queued | Retry | Running | Completed | Dead

  datatype Job = Job(
    provider: string, payload: string, status: Status, attempts: nat, maxAttempts: int,
    availableAt: real, leaseOwner: Option<string>, leaseExpiresAt: Option<real>,
    createdAt: real, updatedAt: real, lastError: Option<string>)

  type Table = map<string, Job>

  predicate Terminal(j: Job) {
    j.status == Completed || j.status == Dead
  }

  predicate LeasedBy(j: Job, worker: string) {
    j.leaseOwner == Some(worker)
  }

  // ---------------------------------------------------------------- row updates

  function NewJob(provider: string, payload: string, maxAttempts: int, now: real): Job {
    Job(provider, payload, Queued, 0, maxAttempts, now, None, None, now, now, None)
  }

  predicate Expired(j: Job, now: real) {
    j.status == Running && j.leaseExpiresAt.Some? && j.leaseExpiresAt.value < now
  }

  function Recovered(j: Job, now: real): Job {
    j.(status := if j.attempts >= j.maxAttempts then Dead else Retry,
       leaseOwner := None, leaseExpiresAt := None, availableAt := now, updatedAt := now,
       lastError := if j.lastError.Some? then j.lastError else Some("Worker lease expired; recovered"))
  }

  predicate Claimable(j: Job, now: real) {
    (j.status == Queued || j.status == Retry) && j.availableAt <= now && j.attempts < j.maxAttempts
  }

  function Claimed(j: Job, worker: string, expires: real, now: real): Job {
    j.(status := Running, attempts := j.attempts + 1,
       leaseOwner := Some(worker), leaseExpiresAt := Some(expires), updatedAt := now)
  }

  function Renewed(j: Job, expires: real, now: real): Job {
    j.(leaseExpiresAt := Some(expires), updatedAt := now)
  }

  function Finished(j: Job, now: real): Job {
    j.(status := Completed, leaseOwner := None, leaseExpiresAt := None, updatedAt := now)
  }

  /** The snapshot, not the row, decides between a retry and the dead letter. */
  function FailStatus(snapshot: Job): Status {
    if snapshot.attempts >= snapshot.maxAttempts then Dead else Retry
  }

  function Failed(j: Job, status: Status, available: real, now: real, error: string): Job {
    j.(status := status, availableAt := available, leaseOwner := None, leaseExpiresAt := None, updatedAt := now,
       lastError := Some(if |error| <= 2000 then error else error[..2000]))
  }

  // ---------------------------------------------------------------- retry delay

  function MinReal(a: real, b: real): real { if a <= b then a else b }
  function MaxReal(a: real, b: real): real { if a >= b then a else b }

  function RetryDelay(attempts: nat, retryAfter: Option<real>): real {
    var power := Pow2(if attempts >= 1 then attempts - 1 else 0);
    var delay := if power <= 300 then power as real else 300.0;
    match retryAfter
    case None => delay
    case Some(seconds) => MaxReal(delay, MinReal(3600.0, MaxReal(1.0, seconds)))
  }

  lemma {:induction false} Pow2Grows(m: nat, n: nat)
    requires m <= n
    ensures 1 <= Pow2(m) <= Pow2(n)
  {
    if n > 0 {
      if m < n { Pow2Grows(m, n - 1); } else { Pow2Grows(m - 1, n - 1); }
    }
  }

  /** The delay stays between a second and an hour, never shrinks as attempts grow,
      and honours what the provider asks for within those bounds. */
  lemma RetryDelayBounds(attempts: nat, later: nat, retryAfter: Option<real>)
    requires attempts <= later
    ensures 1.0 <= RetryDelay(attempts, retryAfter) <= RetryDelay(later, retryAfter) <= 3600.0
    ensures retryAfter.None? ==> RetryDelay(later, retryAfter) <= 300.0
    ensures retryAfter.Some? && retryAfter.value <= 3600.0 ==> RetryDelay(attempts, retryAfter) >= retryAfter.value
    ensures retryAfter.Some? && retryAfter.value > 3600.0 ==> RetryDelay(attempts, retryAfter) == 3600.0
  {
    Pow2Grows(if attempts >= 1 then attempts - 1 else 0, if later >= 1 then later - 1 else 0);
  }

  /** The delay starts at a second and doubles with each attempt, up to five minutes; a provider that asks for
      more is given it, from one second up to an hour. */
  lemma RetryDelayDoubles(attempts: nat, seconds: real)
    ensures RetryDelay(0, None) == RetryDelay(1, None) == 1.0
    ensures var double := 2.0 * RetryDelay(attempts, None);
      attempts >= 1 ==> RetryDelay(attempts + 1, None) == if double <= 300.0 then double else 300.0
    ensures var asked := if seconds < 1.0 then 1.0 else if seconds > 3600.0 then 3600.0 else seconds;
      RetryDelay(attempts, Some(seconds)) == if asked > RetryDelay(attempts, None) then asked
                                             else RetryDelay(attempts, None)
  {
  }

  // ---------------------------------------------------------------- statements

  /** A row once leased: one more attempt, the worker's until the lease ends, else as it was. */
  predicate LeasedNow(was: Job, job: Job, worker: string, now: real, leaseSeconds: real) {
    && was.status in {Queued, Retry} && was.availableAt <= now && was.attempts < was.maxAttempts
    && job.status == Running && job.attempts == was.attempts + 1
    && job.leaseOwner == Some(worker) && job.leaseExpiresAt == Some(now + leaseSeconds)
    && job.availableAt == was.availableAt && job.createdAt == was.createdAt && job.maxAttempts == was.maxAttempts
    && job.provider == was.provider && job.payload == was.payload && job.lastError == was.lastError
  }

  /** UPDATE ... recover, over the rows the statement could lock. */
  function RecoverIn(t: Table, free: set<string>, now: real): (r: Table)
    ensures r.Keys == t.Keys
  {
    map id | id in t :: if id in free && Expired(t[id], now) then Recovered(t[id], now) else t[id]
  }

  predicate SortsNoLater(a: Job, b: Job) {
    a.availableAt < b.availableAt || (a.availableAt == b.availableAt && a.createdAt <= b.createdAt)
  }

  /** ORDER BY available_at, created_at LIMIT 1 may return id (ties are the engine's choice). */
  ghost predicate IsFirst(t: Table, free: set<string>, now: real, id: string) {
    && id in t && id in free && Claimable(t[id], now)
    && forall other :: other in t && other in free && Claimable(t[other], now) ==> SortsNoLater(t[id], t[other])
  }

  ghost predicate NoneClaimable(t: Table, free: set<string>, now: real) {
    forall id :: id in t && id in free ==> !Claimable(t[id], now)
  }

  predicate Earliest(t: Table, ids: set<string>, id: string)
    requires ids <= t.Keys
  {
    id in ids && forall other :: other in ids ==> SortsNoLater(t[id], t[other])
  }

  /** The engine always has a first row when it has any. */
  lemma {:induction false} FirstExists(t: Table, ids: set<string>)
    requires ids <= t.Keys && ids != {}
    ensures exists id :: Earliest(t, ids, id)
  {
    var x :| x in ids;
    var rest := ids - {x};
    if rest == {} {
      assert ids == {x};
      assert Earliest(t, ids, x);
    } else {
      FirstExists(t, rest);
      var y :| Earliest(t, rest, y);
      var first := if SortsNoLater(t[x], t[y]) then x else y;
      forall other | other in ids ensures SortsNoLater(t[first], t[other]) {
        assert other == x || other in rest;
      }
      assert Earliest(t, ids, first);
    }
  }

  class ConnectorJobStore {
    var rows: Table

    constructor ()
      ensures rows == map[]
    {
      rows := map[];
    }

    /** False when the job id is taken: the insert raises and nothing changes. */
    method Enqueue(jobId: string, provider: string, payload: string, maxAttempts: int, now: real) returns (ok: bool)
      modifies this
      ensures ok <==> jobId !in old(rows)
      ensures rows == if ok then old(rows)[jobId := NewJob(provider, payload, maxAttempts, now)] else old(rows)
      ensures ok ==>
        var job := rows[jobId];
        && job.provider == provider && job.payload == payload && job.status == Queued
        && job.attempts == 0 && job.maxAttempts == maxAttempts
        && job.availableAt == job.createdAt == job.updatedAt == now
        && job.leaseOwner.None? && job.leaseExpiresAt.None? && job.lastError.None?
    {
      ok := jobId !in rows;
      if ok {
        rows := rows[jobId := Job(provider, payload, Queued, 0, maxAttempts, now, None, None, now, now, None)];
      }
    }

    /** First statement of a claim. `free` are the rows no other transaction has locked. */
    method Recover(now: real, free: set<string>)
      modifies this
      ensures rows == RecoverIn(old(rows), free, now)
      ensures forall id :: id in old(rows) ==>
        var was, row := old(rows)[id], rows[id];
        if id in free && was.status == Running && was.leaseExpiresAt.Some? && was.leaseExpiresAt.value < now
        then
          && row.status == (if was.attempts < was.maxAttempts then Retry else Dead)
          && row.leaseOwner.None? && row.leaseExpiresAt.None? && row.availableAt == row.updatedAt == now
          && row.attempts == was.attempts && row.maxAttempts == was.maxAttempts && row.createdAt == was.createdAt
          && row.provider == was.provider && row.payload == was.payload
          && (was.lastError.Some? ==> row.lastError == was.lastError) && row.lastError.Some?
        else row == was
    {
      var expired := set id | id in rows && id in free
        && rows[id].status == Running && rows[id].leaseExpiresAt.Some? && rows[id].leaseExpiresAt.value < now;
      var dead := set id | id in expired && rows[id].attempts >= rows[id].maxAttempts;
      rows := map id | id in rows ::
        if id in expired then
          rows[id].(status := if id in dead then Dead else Retry, leaseOwner := None, leaseExpiresAt := None,
                    availableAt := now, updatedAt := now,
                    lastError := match rows[id].lastError
                                 case Some(e) => Some(e)
                                 case None => Some("Worker lease expired; recovered"))
        else rows[id];
    }

    /** Second statement of a claim: lease the first claimable free row, if any. */
    method LeaseFirst(worker: string, now: real, leaseSeconds: real, free: set<string>)
      returns (claimed: Option<(string, Job)>)
      modifies this
      ensures claimed.None? <==> NoneClaimable(old(rows), free, now)
      ensures claimed.None? ==> rows == old(rows)
      ensures claimed.Some? ==>
        var (id, job) := claimed.value;
        && IsFirst(old(rows), free, now, id)
        && job == Claimed(old(rows)[id], worker, now + leaseSeconds, now)
        && rows == old(rows)[id := job]
      ensures claimed.Some? ==>
        var (id, job) := claimed.value;
        && id in old(rows) && id in free && LeasedNow(old(rows)[id], job, worker, now, leaseSeconds)
    {
      var candidates := set id | id in rows && id in free
        && rows[id].status in {Queued, Retry} && rows[id].availableAt <= now
        && rows[id].attempts < rows[id].maxAttempts;
      if candidates == {} {
        assert forall id :: id in rows && id in free && Claimable(rows[id], now) ==> id in candidates;
        claimed := None;
        return;
      }
      FirstExists(rows, candidates);
      var id :| id in candidates && Earliest(rows, candidates, id);
      var row := rows[id];
      row := row.(status := Running, attempts := row.attempts + 1);
      row := row.(leaseOwner := Some(worker), leaseExpiresAt := Some(now + leaseSeconds), updatedAt := now);
      rows := rows[id := row];
      claimed := Some((id, row));
    }

    /** SQLite: BEGIN IMMEDIATE holds the database lock, so every row is free. */
    method Claim(worker: string, now: real, leaseSeconds: real) returns (claimed: Option<(string, Job)>)
      modifies this
      ensures var t := RecoverIn(old(rows), old(rows).Keys, now);
        && (claimed.None? <==> NoneClaimable(t, t.Keys, now))
        && (claimed.None? ==> rows == t)
        && (claimed.Some? ==>
              var (id, job) := claimed.value;
              && IsFirst(t, t.Keys, now, id)
              && job == Claimed(t[id], worker, now + leaseSeconds, now)
              && rows == t[id := job])
      ensures rows.Keys == old(rows).Keys
      ensures forall id :: id in old(rows) ==>
        var was := old(rows)[id];
        (if was.status == Running then was.leaseExpiresAt.Some? && was.leaseExpiresAt.value >= now
         else was.availableAt > now) ==> rows[id] == was
      ensures forall id :: id in rows && claimed.None? ==>
        rows[id].status !in {Queued, Retry} || rows[id].availableAt > now || rows[id].attempts >= rows[id].maxAttempts
      ensures claimed.Some? ==>
        var (id, job) := claimed.value;
        && id in rows && rows[id] == job && job.status == Running && job.attempts == old(rows)[id].attempts + 1
        && job.leaseOwner == Some(worker) && job.leaseExpiresAt == Some(now + leaseSeconds)
        && job.provider == old(rows)[id].provider && job.payload == old(rows)[id].payload
        && forall other :: other in rows && other != id ==>
             var row := rows[other];
             row.status in {Queued, Retry} && row.availableAt <= now && row.attempts < row.maxAttempts ==>
               || job.availableAt < row.availableAt
               || (job.availableAt == row.availableAt && job.createdAt <= row.createdAt)
    {
      Recover(now, rows.Keys);
      claimed := LeaseFirst(worker, now, leaseSeconds, rows.Keys);
    }

    method Heartbeat(jobId: string, worker: string, now: real, leaseSeconds: real) returns (held: bool)
      modifies this
      ensures held <==> jobId in old(rows) && old(rows)[jobId].status == Running && LeasedBy(old(rows)[jobId], worker)
      ensures rows == if held then old(rows)[jobId := Renewed(old(rows)[jobId], now + leaseSeconds, now)] else old(rows)
      ensures held ==> rows[jobId].leaseExpiresAt == Some(now + leaseSeconds)
    {
      held := jobId in rows && rows[jobId].status == Running && rows[jobId].leaseOwner == Some(worker);
      if held {
        rows := rows[jobId := rows[jobId].(leaseExpiresAt := Some(now + leaseSeconds), updatedAt := now)];
      }
    }

    method Complete(jobId: string, worker: string, now: real)
      modifies this
      ensures rows ==
        if jobId in old(rows) && LeasedBy(old(rows)[jobId], worker)
        then old(rows)[jobId := Finished(old(rows)[jobId], now)] else old(rows)
      ensures jobId in rows && old(rows)[jobId].leaseOwner == Some(worker) ==>
        && rows[jobId].status == Completed && rows[jobId].leaseOwner.None? && rows[jobId].leaseExpiresAt.None?
        && rows[jobId].attempts == old(rows)[jobId].attempts && rows[jobId].payload == old(rows)[jobId].payload
    {
      if jobId in rows && rows[jobId].leaseOwner == Some(worker) {
        rows := rows[jobId :=
          rows[jobId].(status := Completed, leaseOwner := None, leaseExpiresAt := None, updatedAt := now)];
      }
    }

    method Fail(jobId: string, snapshot: Job, worker: string, error: string, retryAfter: Option<real>, now: real)
      returns (status: Status)
      modifies this
      ensures status == FailStatus(snapshot)
      ensures rows ==
        if jobId in old(rows) && LeasedBy(old(rows)[jobId], worker)
        then old(rows)[jobId :=
          Failed(old(rows)[jobId], status, now + RetryDelay(snapshot.attempts, retryAfter), now, error)]
        else old(rows)
      ensures status == (if snapshot.attempts < snapshot.maxAttempts then Retry else Dead)
      ensures jobId in rows && old(rows)[jobId].leaseOwner == Some(worker) ==>
        && rows[jobId].status == status && rows[jobId].leaseOwner.None? && rows[jobId].leaseExpiresAt.None?
        && rows[jobId].availableAt == now + RetryDelay(snapshot.attempts, retryAfter)
        && rows[jobId].attempts == old(rows)[jobId].attempts && rows[jobId].payload == old(rows)[jobId].payload
        && rows[jobId].lastError == Some(if |error| > 2000 then error[..2000] else error)
    {
      status := if snapshot.attempts >= snapshot.maxAttempts then Dead else Retry;
      var power := Pow2(if snapshot.attempts >= 1 then snapshot.attempts - 1 else 0);
      var delay := if power <= 300 then power as real else 300.0;
      if retryAfter.Some? {
        delay := MaxReal(delay, MinReal(3600.0, MaxReal(1.0, retryAfter.value)));
      }
      if jobId in rows && rows[jobId].leaseOwner == Some(worker) {
        var text := if |error| <= 2000 then error else error[..2000];
        rows := rows[jobId := rows[jobId].(status := status, availableAt := now + delay, leaseOwner := None,
                                           leaseExpiresAt := None, updatedAt := now, lastError := Some(text))];
      }
    }
  }
}

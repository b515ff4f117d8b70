/** The pool of Postgres sockets behind storage/sql_backend.py: _open_raw and _release_raw, shared by any
    number of connections. */
module PgPool {
  import opened Sequences

  datatype Socket = Ready | Busy | Closed

  /** Idle sockets, newest last; what has become of every socket; how many there have been. */
  datatype Pool = Pool(idle: seq<nat>, sockets: map<nat, Socket>, everOpened: nat)

  /** The newest idle socket without a transaction in progress; the others met on the way are closed. */
  function Opened(p: Pool): (Pool, nat)
    decreases |p.idle|
  {
    if p.idle == [] then
      (Pool([], p.sockets[p.everOpened := Ready], p.everOpened + 1), p.everOpened)
    else
      var front, id := p.idle[..|p.idle| - 1], p.idle[|p.idle| - 1];
      if id in p.sockets && p.sockets[id] == Ready then (p.(idle := front), id)
      else Opened(p.(idle := front, sockets := p.sockets[id := Closed]))
  }

  /** An open transaction is rolled back; a full pool closes the socket. */
  function Released(p: Pool, id: nat, max: int): Pool {
    if id in p.sockets && p.sockets[id] == Closed then p
    else if |p.idle| < max then p.(idle := p.idle + [id], sockets := p.sockets[id := Ready])
    else p.(sockets := p.sockets[id := Closed])
  }

  class SocketPool {
    const max: int
    var idle: seq<nat>
    var sockets: map<nat, Socket>
    var everOpened: nat

    function State(): Pool reads this { Pool(idle, sockets, everOpened) }

    constructor (max: int)
      ensures this.max == max && State() == Pool([], map[], 0)
    {
      this.max := max;
      idle, sockets, everOpened := [], map[], 0;
    }

    method OpenRaw() returns (id: nat)
      modifies this
      ensures (State(), id) == Opened(old(State()))
    {
      while idle != []
        invariant Opened(State()) == Opened(old(State()))
        decreases |idle|
      {
        id := idle[|idle| - 1];
        idle := idle[..|idle| - 1];
        if id in sockets && sockets[id] == Ready {
          return;
        }
        sockets := sockets[id := Closed];
      }
      id := everOpened;
      everOpened := everOpened + 1;
      sockets := sockets[id := Ready];
    }

    method ReleaseRaw(id: nat)
      requires id in sockets
      modifies this
      ensures State() == Released(old(State()), id, max)
    {
      if sockets[id] == Closed {
        return;
      }
      if sockets[id] == Busy {
        sockets := sockets[id := Ready];
      }
      if |idle| < max {
        idle := idle + [id];
      } else {
        sockets := sockets[id := Closed];
      }
    }
  }

  // ---------------------------------------------------------------- many connections

  /** The pool, and the socket each connection has checked out. */
  datatype System = System(pool: Pool, holds: map<string, nat>)

  /** Disturb is whatever happens on the wire: a transaction starts or ends, the server hangs up. */
  datatype Event =
    | Open(connection: string)
    | Close(connection: string)
    | Disturb(id: nat, socket: Socket)

  predicate Enabled(s: System, e: Event) {
    match e
    case Open(c) => c !in s.holds
    case Close(c) => c in s.holds
    case Disturb(id, _) => id in s.pool.sockets
  }

  function Apply(s: System, e: Event, max: int): System
    requires Enabled(s, e)
  {
    match e
    case Open(c) => var (p, id) := Opened(s.pool); System(p, s.holds[c := id])
    case Close(c) => System(Released(s.pool, s.holds[c], max), s.holds - {c})
    case Disturb(id, socket) => s.(pool := s.pool.(sockets := s.pool.sockets[id := socket]))
  }

  ghost predicate ValidRun(s: System, events: seq<Event>, max: int)
    decreases |events|
  {
    events == [] || (Enabled(s, events[0]) && ValidRun(Apply(s, events[0], max), events[1..], max))
  }

  function Run(s: System, events: seq<Event>, max: int): System
    requires ValidRun(s, events, max)
    decreases |events|
  {
    if events == [] then s else Run(Apply(s, events[0], max), events[1..], max)
  }

  const EMPTY := System(Pool([], map[], 0), map[])

  /** A socket is idle at most once or held by at most one connection, never both. */
  ghost predicate Inv(s: System, max: int) {
    && Distinct(s.pool.idle)
    && (forall k :: 0 <= k < |s.pool.idle| ==> s.pool.idle[k] in s.pool.sockets)
    && (forall id :: id in s.pool.sockets ==> id < s.pool.everOpened)
    && (forall c :: c in s.holds ==> s.holds[c] in s.pool.sockets && s.holds[c] !in s.pool.idle)
    && (forall c, d :: c in s.holds && d in s.holds && s.holds[c] == s.holds[d] ==> c == d)
    && (|s.pool.idle| <= max || s.pool.idle == [])
  }

  /** What a checkout hands out: a socket without a transaction, no longer idle, and nobody's. */
  lemma {:induction false} OpenedIsFree(s: System, max: int)
    requires Inv(s, max)
    ensures var (p, id) := Opened(s.pool);
      && id in p.sockets && p.sockets[id] == Ready && id !in p.idle
      && (forall c :: c in s.holds ==> s.holds[c] != id)
      && Inv(System(p, s.holds), max)
    decreases |s.pool.idle|
  {
    var p := s.pool;
    if p.idle != [] {
      var front, id := p.idle[..|p.idle| - 1], p.idle[|p.idle| - 1];
      assert p.idle == front + [id] && id in p.idle;
      if p.sockets[id] != Ready {
        OpenedIsFree(s.(pool := p.(idle := front, sockets := p.sockets[id := Closed])), max);
      }
    }
  }

  lemma StepKeepsInv(s: System, e: Event, max: int)
    requires Inv(s, max) && Enabled(s, e)
    ensures Inv(Apply(s, e, max), max)
  {
    if e.Open? { OpenedIsFree(s, max); }
  }

  lemma {:induction false} RunKeepsInv(s: System, events: seq<Event>, max: int)
    requires Inv(s, max) && ValidRun(s, events, max)
    ensures Inv(Run(s, events, max), max)
    decreases |events|
  {
    if events != [] {
      StepKeepsInv(s, events[0], max);
      RunKeepsInv(Apply(s, events[0], max), events[1..], max);
    }
  }

  /** Over every run of checkouts, returns and wire events no two connections share a socket, a held socket
      is not idle, the pool keeps at most its size, and the next checkout gets a socket without a transaction. */
  lemma NoSocketIsShared(events: seq<Event>, max: int)
    requires ValidRun(EMPTY, events, max)
    ensures var s := Run(EMPTY, events, max);
      && (forall c, d :: c in s.holds && d in s.holds && c != d ==> s.holds[c] != s.holds[d])
      && (forall c :: c in s.holds ==> s.holds[c] !in s.pool.idle)
      && |s.pool.idle| <= (if max >= 0 then max else 0)
      && (var (p, id) := Opened(s.pool);
          id in p.sockets && p.sockets[id] == Ready && forall c :: c in s.holds ==> s.holds[c] != id)
  {
    RunKeepsInv(EMPTY, events, max);
    OpenedIsFree(Run(EMPTY, events, max), max);
  }

  // ---------------------------------------------------------------- what the pool is for

  /** A checkout takes the newest idle socket without a transaction; the newer ones it met are closed, the older ones
      stay, and no socket is opened. */
  lemma {:induction false} NewestCleanIsReused(p: Pool, k: nat)
    requires Distinct(p.idle) && k < |p.idle| && p.idle[k] in p.sockets && p.sockets[p.idle[k]] == Ready
    requires forall j :: k < j < |p.idle| ==> p.idle[j] in p.sockets && p.sockets[p.idle[j]] != Ready
    ensures var (q, id) := Opened(p);
      && id == p.idle[k] && q.idle == p.idle[..k] && q.everOpened == p.everOpened && q.sockets.Keys == p.sockets.Keys
      && (forall j :: k < j < |p.idle| ==> q.sockets[p.idle[j]] == Closed)
      && forall other :: other in p.sockets && other !in p.idle[k + 1..] ==> q.sockets[other] == p.sockets[other]
    decreases |p.idle|
  {
    var last := |p.idle| - 1;
    if k < last {
      NewestCleanIsReused(p.(idle := p.idle[..last], sockets := p.sockets[p.idle[last] := Closed]), k);
      assert p.idle[k + 1..] == p.idle[..last][k + 1..] + [p.idle[last]];
    }
  }

  /** A new socket is opened only when no idle one is without a transaction; they are all closed then. */
  lemma {:induction false} NoneCleanOpensNew(p: Pool)
    requires forall j :: 0 <= j < |p.idle| ==> p.idle[j] in p.sockets && p.sockets[p.idle[j]] != Ready
    ensures var (q, id) := Opened(p);
      && id == p.everOpened && q.idle == [] && q.everOpened == p.everOpened + 1
      && q.sockets.Keys == p.sockets.Keys + {id} && q.sockets[id] == Ready
      && (forall j :: 0 <= j < |p.idle| && p.idle[j] != id ==> q.sockets[p.idle[j]] == Closed)
      && forall other :: other in p.sockets && other !in p.idle && other != id ==> q.sockets[other] == p.sockets[other]
    decreases |p.idle|
  {
    if p.idle != [] {
      var last := |p.idle| - 1;
      NoneCleanOpensNew(p.(idle := p.idle[..last], sockets := p.sockets[p.idle[last] := Closed]));
    }
  }

  /** A socket given back while there is room is what the next checkout gets, rolled back; without room it is closed,
      and one the server has hung up on is forgotten. */
  lemma ReleasedIsNext(p: Pool, id: nat, max: int)
    requires id in p.sockets
    ensures p.sockets[id] != Closed && |p.idle| < max ==>
      Opened(Released(p, id, max)) == (p.(sockets := p.sockets[id := Ready]), id)
    ensures p.sockets[id] != Closed && |p.idle| >= max ==>
      Released(p, id, max).sockets[id] == Closed && Released(p, id, max).idle == p.idle
    ensures p.sockets[id] == Closed ==> Released(p, id, max) == p
  {
    if p.sockets[id] != Closed && |p.idle| < max { assert (p.idle + [id])[..|p.idle|] == p.idle; }
  }
}

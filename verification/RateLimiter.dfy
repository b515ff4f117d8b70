/** Shared pacing and retries of connectors/bitbucket/api.py. Every limiter method holds one lock, also
    while it sleeps, so their effects are serialised in lock order. Times are points on the loop clock. */
module RateLimiter {
  import opened Arith
  import opened Options

  datatype Config = Config(minInterval: real, maxInterval: real)

  datatype Pace = Pace(interval: real, nextAt: real, blockedUntil: real, streak: nat)

  function Max(a: real, b: real): (r: real)
    ensures r >= a && r >= b && (r == a || r == b)
  {
    if a >= b then a else b
  }

  function Min(a: real, b: real): (r: real)
    ensures r <= a && r <= b && (r == a || r == b)
  {
    if a <= b then a else b
  }

  function Configured(interval: real, ceiling: real): Config {
    var low := Max(0.0, interval);
    Config(low, Max(low, ceiling))
  }

  predicate Sound(c: Config) { 0.0 <= c.minInterval <= c.maxInterval }

  predicate WithinBounds(c: Config, p: Pace) {
    c.minInterval <= p.interval <= c.maxInterval && p.streak < 20
  }

  // ---------------------------------------------------------------- one step each

  predicate MayGo(p: Pace, now: real) { p.nextAt <= now && p.blockedUntil <= now }

  function Gone(p: Pace, now: real): Pace { p.(nextAt := now + p.interval) }

  function Cooled(p: Pace, now: real, seconds: real): Pace {
    p.(blockedUntil := Max(p.blockedUntil, now + Max(0.0, seconds)))
  }

  function Throttled(c: Config, p: Pace, now: real, seconds: real): Pace {
    Cooled(p, now, seconds).(
      interval := Min(c.maxInterval, Max(Max(p.interval * 1.5, seconds * 1.1), c.minInterval)), streak := 0)
  }

  function Succeeded(c: Config, p: Pace): Pace {
    if p.streak + 1 >= 20 then p.(interval := Max(c.minInterval, p.interval * 0.9), streak := 0)
    else p.(streak := p.streak + 1)
  }

  // ---------------------------------------------------------------- critical sections

  /** One critical section of any task, in lock order. */
  datatype Event =
    | Go(at: real)
    | Cooldown(at: real, seconds: real)
    | Throttle(at: real, seconds: real)
    | Success(at: real)

  function Apply(c: Config, p: Pace, e: Event): Pace {
    match e
    case Go(at) => Gone(p, at)
    case Cooldown(at, s) => Cooled(p, at, s)
    case Throttle(at, s) => Throttled(c, p, at, s)
    case Success(_) => Succeeded(c, p)
  }

  function PaceAfter(c: Config, p: Pace, events: seq<Event>): Pace
    decreases |events|
  {
    if events == [] then p else PaceAfter(c, Apply(c, p, events[0]), events[1..])
  }

  lemma StepStaysWithin(c: Config, p: Pace, e: Event)
    requires Sound(c) && WithinBounds(c, p)
    ensures WithinBounds(c, Apply(c, p, e)) && p.blockedUntil <= Apply(c, p, e).blockedUntil
    ensures e.Go? && MayGo(p, e.at) ==> p.nextAt <= Apply(c, p, e).nextAt
    ensures !e.Go? ==> p.nextAt == Apply(c, p, e).nextAt
  {
  }

  /** Whatever critical sections are passed through, the interval is within its bounds, and no block is shortened. */
  lemma {:induction false} PaceStaysWithin(c: Config, p: Pace, events: seq<Event>)
    requires Sound(c) && WithinBounds(c, p)
    ensures WithinBounds(c, PaceAfter(c, p, events)) && p.blockedUntil <= PaceAfter(c, p, events).blockedUntil
    decreases |events|
  {
    if events != [] {
      StepStaysWithin(c, p, events[0]);
      PaceStaysWithin(c, Apply(c, p, events[0]), events[1..]);
    }
  }

  /** The clock at each turn of the waiting loop: the first naps last as long as they last, early or late,
      the ones after them as long as was asked for. */
  function Reading(p: Pace, now: real, naps: seq<real>, k: nat): real {
    if k == 0 then now
    else
      var at := Reading(p, now, naps, k - 1);
      at + if k - 1 < |naps| then naps[k - 1] else Max(p.nextAt, p.blockedUntil) - at
  }

  // ---------------------------------------------------------------- the client

  datatype Outcome = TransportError | Reply(status: int, delay: real)

  /** One attempt as it will go: what other tasks do before its turn and before its reply, how long its naps
      last, how long the request takes, what comes back. */
  datatype Attempt = Attempt(before: seq<Event>, naps: seq<real>, meanwhile: seq<Event>, took: real, outcome: Outcome)

  datatype Answer =
    | Response(status: int) | Unauthorized | RateLimited(delay: real) | Failed(status: int) | NetworkFailed

  predicate Transient(status: int) { status in {429, 500, 502, 503, 504, 555} }

  /** Does attempt number k of `retries` end the loop? */
  predicate Final(o: Outcome, k: nat, retries: nat, maxInline: real) {
    match o
    case TransportError => k == retries - 1
    case Reply(status, delay) =>
      if status == 401 || !Transient(status) then true
      else k == retries - 1 || (status == 429 && delay > maxInline)
  }

  /** None of the first n attempts ends the loop. */
  ghost predicate GoesOn(attempts: seq<Attempt>, n: nat, retries: nat, maxInline: real) {
    n <= |attempts| && forall k :: 0 <= k < n ==> !Final(attempts[k].outcome, k, retries, maxInline)
  }

  lemma GoesOnMore(attempts: seq<Attempt>, n: nat, retries: nat, maxInline: real)
    requires GoesOn(attempts, n, retries, maxInline) && n < |attempts|
    requires !Final(attempts[n].outcome, n, retries, maxInline)
    ensures GoesOn(attempts, n + 1, retries, maxInline) && n + 1 != retries
  {
  }

  function AnswerTo(o: Outcome): Answer {
    match o
    case TransportError => NetworkFailed
    case Reply(status, delay) =>
      if status == 401 then Unauthorized
      else if status == 429 then RateLimited(delay)
      else if status >= 400 then Failed(status)
      else Response(status)
  }

  /** How long attempt number k asks the next one to wait. */
  function Wait(o: Outcome, k: nat): real {
    match o
    case TransportError => Min(30.0, Pow2(k) as real)
    case Reply(_, delay) => Max(0.0, delay)
  }

  /** When the attempt after number k may be released. */
  function NextAt(attempts: seq<Attempt>, releases: seq<real>, k: nat): real
    requires k < |releases| <= |attempts|
  {
    releases[k] + attempts[k].took + Wait(attempts[k].outcome, k)
  }

  /** Every retry was released no earlier than its wait after the reply before it. */
  ghost predicate Waited(attempts: seq<Attempt>, releases: seq<real>) {
    |releases| <= |attempts| && forall k :: 0 <= k < |releases| - 1 ==> releases[k + 1] >= NextAt(attempts, releases, k)
  }

  lemma WaitedMore(attempts: seq<Attempt>, releases: seq<real>, at: real)
    requires Waited(attempts, releases) && |releases| < |attempts|
    requires releases != [] ==> at >= NextAt(attempts, releases, |releases| - 1)
    ensures Waited(attempts, releases + [at])
  {
    var more := releases + [at];
    forall k | 0 <= k < |releases| ensures NextAt(attempts, more, k) == NextAt(attempts, releases, k) { }
  }

  /** What attempt number k does to the pace once its outcome is there. */
  function Reaction(o: Outcome, k: nat, retries: nat, now: real): seq<Event> {
    match o
    case TransportError => if k == retries - 1 then [] else [Cooldown(now, Wait(o, k))]
    case Reply(status, delay) =>
      if status == 429 then [Throttle(now, delay)]
      else if status == 401 || (!Transient(status) && status >= 400) then []
      else if !Transient(status) then [Success(now)]
      else if k == retries - 1 then []
      else [Cooldown(now, delay)]
  }

  /** The critical sections during these attempts, released at these times, the other tasks' included. */
  function Sections(attempts: seq<Attempt>, releases: seq<real>, retries: nat): seq<Event>
    requires |releases| <= |attempts|
    decreases |releases|
  {
    if releases == [] then []
    else
      var k := |releases| - 1;
      var Attempt(before, _, meanwhile, took, outcome) := attempts[k];
      Sections(attempts, releases[..k], retries) + before + [Go(releases[k])] + meanwhile +
        Reaction(outcome, k, retries, releases[k] + took)
  }

  lemma {:induction false} PaceAfterConcat(c: Config, p: Pace, a: seq<Event>, b: seq<Event>)
    ensures PaceAfter(c, p, a + b) == PaceAfter(c, PaceAfter(c, p, a), b)
    decreases |a|
  {
    if a == [] {
      assert a + b == b;
    } else {
      assert (a + b)[1..] == a[1..] + b;
      PaceAfterConcat(c, Apply(c, p, a[0]), a[1..], b);
    }
  }

  lemma PaceAfterOne(c: Config, p: Pace, e: Event)
    ensures PaceAfter(c, p, [e]) == Apply(c, p, e)
  {
    assert [e][1..] == [];
  }

  /** The pace at the reply of an attempt released at this time. */
  function Interrupted(c: Config, p: Pace, attempt: Attempt, at: real): Pace {
    PaceAfter(c, Gone(PaceAfter(c, p, attempt.before), at), attempt.meanwhile)
  }

  /** Attempt number k, released at this time, takes the pace from p to q. */
  predicate PassesThrough(c: Config, p: Pace, q: Pace, attempt: Attempt, k: nat, retries: nat, at: real) {
    q == PaceAfter(c, Interrupted(c, p, attempt, at), Reaction(attempt.outcome, k, retries, at + attempt.took))
  }

  /** One more attempt: the pace up to its reply, and then its reaction. */
  lemma OneMoreAttempt(c: Config, p: Pace, attempts: seq<Attempt>, releases: seq<real>, retries: nat, at: real)
    requires |releases| < |attempts|
    ensures var k := |releases|;
      var q := Interrupted(c, PaceAfter(c, p, Sections(attempts, releases, retries)), attempts[k], at);
      PaceAfter(c, p, Sections(attempts, releases + [at], retries)) ==
        PaceAfter(c, q, Reaction(attempts[k].outcome, k, retries, at + attempts[k].took))
  {
    var k := |releases|;
    var Attempt(before, _, meanwhile, took, outcome) := attempts[k];
    assert (releases + [at])[..k] == releases;
    var so := Sections(attempts, releases, retries);
    PaceAfterConcat(c, p, so, before);
    PaceAfterConcat(c, p, so + before, [Go(at)]);
    PaceAfterOne(c, PaceAfter(c, p, so + before), Go(at));
    PaceAfterConcat(c, p, so + before + [Go(at)], meanwhile);
    PaceAfterConcat(c, p, so + before + [Go(at)] + meanwhile, Reaction(outcome, k, retries, at + took));
  }

  /** The attempts released so far: each retry waited, the pace went through all their sections, and no block was
      shortened. */
  ghost predicate Course(c: Config, start: Pace, p: Pace, attempts: seq<Attempt>, releases: seq<real>, retries: nat) {
    && Waited(attempts, releases) && p == PaceAfter(c, start, Sections(attempts, releases, retries))
    && start.blockedUntil <= p.blockedUntil
  }

  lemma CourseMore(c: Config, start: Pace, p: Pace, q: Pace, attempts: seq<Attempt>, releases: seq<real>,
                   retries: nat, at: real)
    requires Course(c, start, p, attempts, releases, retries) && |releases| < |attempts|
    requires releases != [] ==> at >= NextAt(attempts, releases, |releases| - 1)
    requires p.blockedUntil <= q.blockedUntil
    requires PassesThrough(c, p, q, attempts[|releases|], |releases|, retries, at)
    ensures Course(c, start, q, attempts, releases + [at], retries)
  {
    OneMoreAttempt(c, start, attempts, releases, retries, at);
    WaitedMore(attempts, releases, at);
  }

  /** What that means for each retry: released no earlier than the reply it follows came, plus what the server asked
      for, or 2^k up to 30 seconds if none came. */
  lemma RetriesWait(c: Config, start: Pace, p: Pace, attempts: seq<Attempt>, releases: seq<real>, retries: nat, k: nat)
    requires Course(c, start, p, attempts, releases, retries) && k + 1 < |releases|
    ensures |releases| <= |attempts|
    ensures var replied := releases[k] + attempts[k].took;
      && (attempts[k].outcome.Reply? ==>
            releases[k + 1] >= replied && releases[k + 1] >= replied + attempts[k].outcome.delay)
      && (attempts[k].outcome.TransportError? ==>
            releases[k + 1] >= replied + if Pow2(k) <= 30 then Pow2(k) as real else 30.0)
  {
    assert releases[k + 1] >= NextAt(attempts, releases, k);
  }

  /** A 429 always slows the client down, a returned response always counts towards speeding it up, and what is
      retried for any other reason is only waited for. */
  lemma ReactionIs(c: Config, p: Pace, o: Outcome, k: nat, retries: nat, now: real)
    ensures var q := PaceAfter(c, p, Reaction(o, k, retries, now));
      && (o.TransportError? ==> q == if k == retries - 1 then p else Apply(c, p, Cooldown(now, Wait(o, k))))
      && (o.Reply? && o.status == 429 ==> q == Apply(c, p, Throttle(now, o.delay)))
      && (o.Reply? && o.status in {500, 502, 503, 504, 555} ==>
            q == if k == retries - 1 then p else Apply(c, p, Cooldown(now, o.delay)))
      && (o.Reply? && o.status < 400 ==> q == Apply(c, p, Success(now)))
      && (o.Reply? && o.status >= 400 && o.status !in {429, 500, 502, 503, 504, 555} ==> q == p)
  {
    var events := Reaction(o, k, retries, now);
    if events != [] { PaceAfterOne(c, p, events[0]); }
  }

  class Client {
    const config: Config
    const maxRetries: nat
    const maxInlineRetry: real
    var pace: Pace

    ghost predicate Valid()
      reads this
    {
      Sound(config) && maxRetries >= 1 && WithinBounds(config, pace)
    }

    constructor (interval: real, ceiling: real, retries: int, maxInline: real)
      ensures Valid() && config == Configured(interval, ceiling)
      ensures pace == Pace(config.minInterval, 0.0, 0.0, 0)
      ensures maxRetries == (if retries > 1 then retries else 1)
      ensures config.minInterval == (if interval > 0.0 then interval else 0.0)
      ensures config.maxInterval == (if ceiling > config.minInterval then ceiling else config.minInterval)
      ensures maxInlineRetry == (if maxInline > 0.0 then maxInline else 0.0)
    {
      config := Configured(interval, ceiling);
      maxRetries := if retries > 1 then retries else 1;
      maxInlineRetry := Max(0.0, maxInline);
      pace := Pace(Max(0.0, interval), 0.0, 0.0, 0);
    }

    /** Sleeps until both the pacing gap and any cooldown have passed, again if a nap ends early: the release is
        at the first reading of the clock that allows it. */
    method WaitForRequestTurn(now: real, naps: seq<real>) returns (at: real, ghost turns: nat)
      requires Valid()
      modifies this`pace
      ensures Valid() && MayGo(old(pace), at) && pace == Gone(old(pace), at)
      ensures at == Reading(old(pace), now, naps, turns)
      ensures forall k :: 0 <= k < turns ==> !MayGo(old(pace), Reading(old(pace), now, naps, k))
      ensures turns <= |naps| + 1
      ensures turns == 0 ==> at == now
      ensures turns > |naps| ==> at == old(pace).nextAt || at == old(pace).blockedUntil
      ensures pace.nextAt == at + pace.interval && pace == old(pace).(nextAt := pace.nextAt)
    {
      at, turns := now, 0;
      var asleep := 0;
      while true
        invariant pace == old(pace) && turns == asleep <= |naps| + 1
        invariant at == Reading(pace, now, naps, turns)
        invariant asleep == |naps| + 1 ==> MayGo(pace, at)
        invariant forall k :: 0 <= k < turns ==> !MayGo(pace, Reading(pace, now, naps, k))
        decreases |naps| + 1 - asleep
      {
        var delay := Max(pace.nextAt, pace.blockedUntil) - at;
        if delay <= 0.0 {
          pace := pace.(nextAt := at + pace.interval);
          return;
        }
        at := at + if asleep < |naps| then naps[asleep] else delay;
        asleep := asleep + 1;
        turns := turns + 1;
      }
    }

    /** Other tasks passing through the same lock. */
    method Interleave(events: seq<Event>)
      requires Valid()
      modifies this`pace
      ensures Valid() && pace == PaceAfter(config, old(pace), events) && old(pace).blockedUntil <= pace.blockedUntil
    {
      PaceStaysWithin(config, pace, events);
      pace := PaceAfter(config, pace, events);
    }

    method SetCooldown(now: real, seconds: real)
      requires Valid()
      modifies this`pace
      ensures Valid() && pace == Cooled(old(pace), now, seconds)
      ensures pace.blockedUntil >= old(pace).blockedUntil && pace.blockedUntil >= now + seconds
      ensures pace.blockedUntil in {old(pace).blockedUntil, now, now + seconds}
    {
      pace := pace.(blockedUntil := Max(pace.blockedUntil, now + Max(0.0, seconds)));
    }

    method ApplyRateLimit(now: real, seconds: real) returns (interval: real)
      requires Valid()
      modifies this`pace
      ensures Valid() && pace == Throttled(config, old(pace), now, seconds) && interval == pace.interval
    {
      pace := pace.(blockedUntil := Max(pace.blockedUntil, now + Max(0.0, seconds)));
      var wanted := Max(Max(pace.interval * 1.5, seconds * 1.1), config.minInterval);
      pace := pace.(interval := Min(config.maxInterval, wanted));
      pace := pace.(streak := 0);
      interval := pace.interval;
    }

    method RecordSuccess()
      requires Valid()
      modifies this`pace
      ensures Valid() && pace == Succeeded(config, old(pace))
    {
      var streak := pace.streak + 1;
      if streak >= 20 {
        pace := pace.(interval := Max(config.minInterval, pace.interval * 0.9));
        streak := 0;
      }
      pace := pace.(streak := streak);
    }

    /** One turn of the retry loop: waits, sends, and reacts to the outcome. None means that another is due. */
    method TryOnce(now: real, attempt: Attempt, k: nat) returns (answer: Option<Answer>, at: real)
      requires Valid() && k < maxRetries
      modifies this`pace
      ensures Valid() && at >= old(pace).blockedUntil && old(pace).blockedUntil <= pace.blockedUntil
      ensures answer == if Final(attempt.outcome, k, maxRetries, maxInlineRetry) then Some(AnswerTo(attempt.outcome))
                        else None
      ensures answer.None? ==> pace.blockedUntil >= at + attempt.took + Wait(attempt.outcome, k)
      ensures PassesThrough(config, old(pace), pace, attempt, k, maxRetries, at)
    {
      Interleave(attempt.before);
      ghost var turns;
      at, turns := WaitForRequestTurn(now, attempt.naps);
      var replied := at + attempt.took;
      Interleave(attempt.meanwhile);
      ReactionIs(config, pace, attempt.outcome, k, maxRetries, replied);
      match attempt.outcome {
        case TransportError =>
          if k == maxRetries - 1 { return Some(NetworkFailed), at; }
          SetCooldown(replied, Min(30.0, Pow2(k) as real));
        case Reply(status, delay) =>
          if status == 401 { return Some(Unauthorized), at; }
          if Transient(status) {
            if status == 429 {
              var _ := ApplyRateLimit(replied, delay);
              if delay > maxInlineRetry || k == maxRetries - 1 { return Some(RateLimited(delay)), at; }
            } else if k == maxRetries - 1 {
              return Some(Failed(status)), at;
            }
            if status != 429 { SetCooldown(replied, delay); }
          } else {
            if status >= 400 { return Some(Failed(status)), at; }
            RecordSuccess();
            return Some(Response(status)), at;
          }
      }
      answer := None;
    }

    /** Sends at least one and at most maxRetries requests: up to the first attempt that ends the loop,
        whose outcome alone decides the answer, whatever other tasks do to the pace meanwhile. A returned
        response never has a status of 400 or more, and the loop never runs out of attempts unanswered. Each
        retry is released no earlier than its wait after the reply it follows: what the server asked for, or
        1, 2, 4 ... up to 30 seconds after a transport error. */
    method Request(start: real, attempts: seq<Attempt>)
      returns (answer: Answer, sent: nat, ghost releases: seq<real>)
      requires Valid() && |attempts| >= maxRetries
      modifies this`pace
      ensures Valid()
      ensures 1 <= sent <= maxRetries
      ensures Final(attempts[sent - 1].outcome, sent - 1, maxRetries, maxInlineRetry)
      ensures GoesOn(attempts, sent - 1, maxRetries, maxInlineRetry)
      ensures answer == AnswerTo(attempts[sent - 1].outcome)
      ensures answer.Response? ==> answer.status < 400
      ensures |releases| == sent && Course(config, old(pace), pace, attempts, releases, maxRetries)
    {
      var now := start;
      sent := 0;
      releases := [];
      for attempt := 0 to maxRetries
        invariant Valid() && sent == attempt == |releases|
        invariant GoesOn(attempts, attempt, maxRetries, maxInlineRetry)
        invariant attempt < maxRetries
        invariant Course(config, old(pace), pace, attempts, releases, maxRetries)
        invariant attempt > 0 ==> pace.blockedUntil >= NextAt(attempts, releases, attempt - 1)
      {
        ghost var before := pace;
        var result, at := TryOnce(now, attempts[attempt], attempt);
        CourseMore(config, old(pace), before, pace, attempts, releases, maxRetries, at);
        releases := releases + [at];
        sent := sent + 1;
        now := at + attempts[attempt].took;
        if result.Some? { return result.value, sent, releases; }
        GoesOnMore(attempts, attempt, maxRetries, maxInlineRetry);
      }
      assert false;
    }
  }

  /** What ends the loop and what it answers, by the outcome. */
  lemma OutcomeDecides(o: Outcome, k: nat, retries: nat, maxInline: real)
    ensures Final(o, k, retries, maxInline) <==>
      || k == retries - 1
      || (o.Reply? && o.status !in {429, 500, 502, 503, 504, 555})
      || (o.Reply? && o.status == 429 && o.delay > maxInline)
    ensures o.TransportError? ==> AnswerTo(o) == NetworkFailed && Wait(o, k) <= 30.0
    ensures o.TransportError? && Pow2(k) <= 30 ==> Wait(o, k) == Pow2(k) as real
    ensures o.Reply? ==> Wait(o, k) >= o.delay && Wait(o, k) >= 0.0
    ensures o.Reply? ==>
      AnswerTo(o) == (
        if o.status < 400 then Response(o.status)
        else if o.status == 401 then Unauthorized
        else if o.status == 429 then RateLimited(o.delay)
        else Failed(o.status))
  {
  }

  /** While naps last the clock shows when the waiting began and how long they took together. */
  lemma {:induction false} ReadingIsSum(p: Pace, now: real, naps: seq<real>, k: nat)
    requires k <= |naps|
    ensures Reading(p, now, naps, k) == now + Total(naps[..k])
  {
    if k > 0 {
      ReadingIsSum(p, now, naps, k - 1);
      assert naps[..k][..k - 1] == naps[..k - 1];
    }
  }

  function Total(naps: seq<real>): real {
    if naps == [] then 0.0 else Total(naps[..|naps| - 1]) + naps[|naps| - 1]
  }

  // ---------------------------------------------------------------- slowing down and speeding up

  /** A 429 multiplies the gap by at least 1.5, and by enough for what the server asked plus a tenth - no more than
      that, and within the bounds - and blocks for what it asked, never for less than was blocked already. */
  lemma ThrottleSlows(c: Config, p: Pace, now: real, seconds: real)
    requires 0.0 <= c.minInterval <= p.interval <= c.maxInterval
    ensures var q := Apply(c, p, Throttle(now, seconds));
      && q.interval <= c.maxInterval && q.interval >= p.interval
      && (p.interval * 1.5 <= c.maxInterval ==> q.interval >= p.interval * 1.5)
      && (seconds * 1.1 <= c.maxInterval ==> q.interval >= seconds * 1.1)
      && (q.interval == p.interval * 1.5 || q.interval == seconds * 1.1 ||
          (q.interval == c.maxInterval && (p.interval * 1.5 >= c.maxInterval || seconds * 1.1 >= c.maxInterval)))
      && q.blockedUntil >= p.blockedUntil && q.blockedUntil >= now && q.blockedUntil >= now + seconds
      && (q.blockedUntil == p.blockedUntil || q.blockedUntil == now || q.blockedUntil == now + seconds)
      && q.nextAt == p.nextAt && q.streak == 0
  {
  }

  /** Successes among these critical sections. */
  function Successes(events: seq<Event>): nat
    decreases |events|
  {
    if events == [] then 0 else (if events[0].Success? then 1 else 0) + Successes(events[1..])
  }

  /** After a 429, or any change of gap, only twenty successes in a row without another 429 - whichever tasks they
      belong to - change the gap again. */
  lemma {:induction false} GapHoldsForTwenty(c: Config, p: Pace, events: seq<Event>)
    requires p.streak + Successes(events) < 20 && forall e :: e in events ==> !e.Throttle?
    ensures PaceAfter(c, p, events).interval == p.interval
    ensures PaceAfter(c, p, events).streak == p.streak + Successes(events)
    decreases |events|
  {
    if events != [] { GapHoldsForTwenty(c, Apply(c, p, events[0]), events[1..]); }
  }

  /** ... and the twentieth shortens it by a tenth, down to the lower bound. */
  lemma TwentiethSpeedsUp(c: Config, p: Pace, events: seq<Event>, now: real)
    requires p.streak + Successes(events) == 19 && forall e :: e in events ==> !e.Throttle?
    ensures var q := Apply(c, PaceAfter(c, p, events), Success(now));
      && q.interval == (if p.interval * 0.9 >= c.minInterval then p.interval * 0.9 else c.minInterval)
      && q.streak == 0
  {
    GapHoldsForTwenty(c, p, events);
  }

  // ---------------------------------------------------------------- all tasks together

  /** The clock never goes back, and a request is released only when it may go. */
  predicate ValidRun(c: Config, p: Pace, now: real, events: seq<Event>)
    decreases |events|
  {
    events == [] ||
    (var e := events[0];
     && now <= e.at
     && (e.Go? ==> MayGo(p, e.at))
     && ValidRun(c, Apply(c, p, e), e.at, events[1..]))
  }

  /** A released request, with the gap in force at its release. */
  datatype Release = Release(at: real, gap: real)

  function Releases(c: Config, p: Pace, events: seq<Event>): seq<Release>
    decreases |events|
  {
    if events == [] then []
    else
      var later := Releases(c, Apply(c, p, events[0]), events[1..]);
      if events[0].Go? then [Release(events[0].at, p.interval)] + later else later
  }

  /** In every reachable state the interval is within its bounds, and no step shortens a block. */
  lemma {:induction false} RunStaysWithin(c: Config, p: Pace, now: real, events: seq<Event>)
    requires Sound(c) && WithinBounds(c, p) && ValidRun(c, p, now, events)
    ensures var q := PaceAfter(c, p, events);
      WithinBounds(c, q) && p.blockedUntil <= q.blockedUntil && p.nextAt <= q.nextAt
    decreases |events|
  {
    if events != [] {
      StepStaysWithin(c, p, events[0]);
      RunStaysWithin(c, Apply(c, p, events[0]), events[0].at, events[1..]);
    }
  }

  /** Nothing is released before the gap and the block the state records. */
  lemma {:induction false} ReleasesWait(c: Config, p: Pace, now: real, events: seq<Event>)
    requires Sound(c) && WithinBounds(c, p) && ValidRun(c, p, now, events)
    ensures forall r :: r in Releases(c, p, events) ==>
      r.at >= p.nextAt && r.at >= p.blockedUntil && r.at >= now && r.gap >= c.minInterval
    decreases |events|
  {
    if events != [] {
      StepStaysWithin(c, p, events[0]);
      ReleasesWait(c, Apply(c, p, events[0]), events[0].at, events[1..]);
    }
  }

  /** Later releases keep the distance the earlier ones ask for. */
  predicate Spaced(rs: seq<Release>)
    decreases |rs|
  {
    |rs| <= 1 || (rs[0].at + rs[0].gap <= rs[1].at && Spaced(rs[1..]))
  }

  /** Over every interleaving, consecutive releases are at least the interval apart that was in force
      at the earlier one. */
  lemma {:induction false} ReleasesAreSpaced(c: Config, p: Pace, now: real, events: seq<Event>)
    requires Sound(c) && WithinBounds(c, p) && ValidRun(c, p, now, events)
    ensures Spaced(Releases(c, p, events))
    decreases |events|
  {
    if events != [] {
      var q, rest := Apply(c, p, events[0]), events[1..];
      StepStaysWithin(c, p, events[0]);
      ReleasesAreSpaced(c, q, events[0].at, rest);
      ReleasesWait(c, q, events[0].at, rest);
      var later := Releases(c, q, rest);
      if events[0].Go? {
        assert Releases(c, p, events)[1..] == later;
        if later != [] { assert later[0] in later; }
      }
    }
  }

  lemma {:induction false} SpacedAt(rs: seq<Release>, k: nat)
    requires Spaced(rs) && k + 1 < |rs|
    ensures rs[k].at + rs[k].gap <= rs[k + 1].at
    decreases k
  {
    if k > 0 { SpacedAt(rs[1..], k - 1); }
  }

  /** n times x, by repeated addition. */
  function Times(n: nat, x: real): real { if n == 0 then 0.0 else Times(n - 1, x) + x }

  lemma {:induction false} TimesIsProduct(n: nat, x: real)
    ensures Times(n, x) == n as real * x
  {
    if n > 0 { TimesIsProduct(n - 1, x); }
  }

  lemma AtLeastProduct(distance: real, n: nat, x: real)
    requires distance >= Times(n, x)
    ensures distance >= n as real * x
  {
    TimesIsProduct(n, x);
  }

  lemma {:induction false} SpacedFar(rs: seq<Release>, i: nat, j: nat, minInterval: real)
    requires Spaced(rs) && i <= j < |rs| && forall r :: r in rs ==> r.gap >= minInterval
    ensures rs[j].at - rs[i].at >= Times(j - i, minInterval)
    decreases j
  {
    if i < j {
      SpacedFar(rs, i, j - 1, minInterval);
      SpacedAt(rs, j - 1);
      assert rs[j - 1] in rs;
    }
  }

  lemma ReleasesFar(c: Config, p: Pace, now: real, events: seq<Event>, i: nat, j: nat) returns (distance: real)
    requires Sound(c) && WithinBounds(c, p) && ValidRun(c, p, now, events)
    requires i <= j < |Releases(c, p, events)|
    ensures distance == Releases(c, p, events)[j].at - Releases(c, p, events)[i].at
    ensures distance >= Times(j - i, c.minInterval)
  {
    var rs := Releases(c, p, events);
    ReleasesAreSpaced(c, p, now, events);
    forall r | r in rs ensures r.gap >= c.minInterval { ReleasesWait(c, p, now, events); }
    SpacedFar(rs, i, j, c.minInterval);
    distance := rs[j].at - rs[i].at;
  }

  /** A rate bound: releases i and j of a run are at least j - i minimum intervals apart, so a window
      of length w holds at most w / minInterval + 1 of them, however many tasks share the client. */
  lemma RateIsBounded(c: Config, p: Pace, now: real, events: seq<Event>, i: nat, j: nat)
    requires Sound(c) && WithinBounds(c, p) && ValidRun(c, p, now, events)
    requires i <= j < |Releases(c, p, events)|
    ensures Releases(c, p, events)[j].at - Releases(c, p, events)[i].at >= (j - i) as real * c.minInterval
  {
    var distance := ReleasesFar(c, p, now, events, i, j);
    AtLeastProduct(distance, j - i, c.minInterval);
  }

  /** No request released after a 429 or a cooldown goes out before the wait it asks for has passed. */
  lemma CooldownIsHonoured(c: Config, p: Pace, now: real, events: seq<Event>)
    requires Sound(c) && WithinBounds(c, p) && ValidRun(c, p, now, events)
    requires events != [] && (events[0].Cooldown? || events[0].Throttle?)
    ensures forall r :: r in Releases(c, p, events) ==> r.at >= events[0].at + Max(0.0, events[0].seconds)
  {
    StepStaysWithin(c, p, events[0]);
    ReleasesWait(c, Apply(c, p, events[0]), events[0].at, events[1..]);
    assert Releases(c, p, events) == Releases(c, Apply(c, p, events[0]), events[1..]);
  }
}

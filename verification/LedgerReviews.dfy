/** The decide-once queues of connectors/core/ledger.py: reviews with their rejection cache, and link
    candidates with their unique triple. Neither table ever loses a row. */
module LedgerReviews {
  import opened Options

  datatype State = Pending | Approved | Rejected

  /** INTEGER PRIMARY KEY AUTOINCREMENT: ids grow and are never reused. */
  datatype RowId = RowId(n: nat)

  datatype Review = Review(
    kind: string, payload: string, identity: Option<string>, state: State,
    decidedBy: Option<string>, decidedAt: Option<real>, createdAt: real)

  datatype Rejection = Rejection(kind: string, reviewId: RowId, rejectedAt: real)

  datatype Queue = Queue(reviews: map<RowId, Review>, lastId: nat, rejections: map<string, Rejection>)

  // ---------------------------------------------------------------- reviews

  predicate Refuses(q: Queue, identity: Option<string>) {
    identity.Some? && identity.value in q.rejections
  }

  function Created(q: Queue, kind: string, payload: string, identity: Option<string>, now: real): Queue {
    if Refuses(q, identity) then q
    else q.(reviews := q.reviews[RowId(q.lastId + 1) := Review(kind, payload, identity, Pending, None, None, now)],
            lastId := q.lastId + 1)
  }

  predicate CanDecide(q: Queue, id: RowId) { id in q.reviews && q.reviews[id].state == Pending }

  /** UPDATE ... WHERE id = ? AND state = 'pending'; a rejection also caches the identity. */
  function Decided(q: Queue, id: RowId, approve: bool, who: string, now: real): Queue {
    if !CanDecide(q, id) then q
    else
      var state := if approve then Approved else Rejected;
      var row := q.reviews[id].(state := state, decidedBy := Some(who), decidedAt := Some(now));
      q.(reviews := q.reviews[id := row],
         rejections := if !approve && row.identity.Some?
                       then q.rejections[row.identity.value := Rejection(row.kind, id, now)] else q.rejections)
  }

  datatype Event =
    | Create(kind: string, payload: string, identity: Option<string>, now: real)
    | Decide(id: RowId, approve: bool, who: string, now: real)

  function Apply(q: Queue, e: Event): Queue {
    match e
    case Create(kind, payload, identity, now) => Created(q, kind, payload, identity, now)
    case Decide(id, approve, who, now) => Decided(q, id, approve, who, now)
  }

  function Run(q: Queue, events: seq<Event>): Queue {
    if events == [] then q else Apply(Run(q, events[..|events| - 1]), events[|events| - 1])
  }

  const EMPTY := Queue(map[], 0, map[])

  /** How often a run decided this review: a decision counts when it found the row pending. */
  function Decisions(q: Queue, events: seq<Event>, id: RowId): nat {
    if events == [] then 0
    else
      var before, e := events[..|events| - 1], events[|events| - 1];
      Decisions(q, before, id) + if e.Decide? && e.id == id && CanDecide(Run(q, before), id) then 1 else 0
  }

  predicate WasRejected(q: Queue, identity: string) {
    exists id :: id in q.reviews && q.reviews[id].identity == Some(identity) && q.reviews[id].state == Rejected
  }

  /** Ids below the counter; undecided rows carry no decision; the cache names a rejected row. */
  ghost predicate Inv(q: Queue) {
    && (forall id :: id in q.reviews ==> 1 <= id.n <= q.lastId)
    && (forall id :: id in q.reviews ==> (q.reviews[id].state == Pending <==> q.reviews[id].decidedAt.None?))
    && (forall i :: i in q.rejections ==>
          var id := q.rejections[i].reviewId;
          id in q.reviews && q.reviews[id].identity == Some(i) && q.reviews[id].state == Rejected)
    && (forall id :: id in q.reviews && q.reviews[id].state == Rejected && q.reviews[id].identity.Some? ==>
          q.reviews[id].identity.value in q.rejections)
  }

  lemma CreateKeepsInv(q: Queue, kind: string, payload: string, identity: Option<string>, now: real)
    requires Inv(q)
    ensures Inv(Created(q, kind, payload, identity, now))
  {
  }

  lemma DecideKeepsInv(q: Queue, id: RowId, approve: bool, who: string, now: real)
    requires Inv(q)
    ensures Inv(Decided(q, id, approve, who, now))
  {
  }

  lemma {:induction false} RunKeepsInv(q: Queue, events: seq<Event>)
    requires Inv(q)
    ensures Inv(Run(q, events))
  {
    if events != [] {
      var before := events[..|events| - 1];
      RunKeepsInv(q, before);
      match events[|events| - 1]
      case Create(kind, payload, identity, now) => CreateKeepsInv(Run(q, before), kind, payload, identity, now);
      case Decide(id, approve, who, now) => DecideKeepsInv(Run(q, before), id, approve, who, now);
    }
  }

  /** From an empty queue, an identity is in the rejection cache iff some review with it is rejected. */
  lemma CacheIsRejectedIdentities(events: seq<Event>, identity: string)
    ensures var q := Run(EMPTY, events); identity in q.rejections <==> WasRejected(q, identity)
  {
    RunKeepsInv(EMPTY, events);
    var q := Run(EMPTY, events);
    if identity in q.rejections { assert q.rejections[identity].reviewId in q.reviews; }
  }

  /** A decided review is never changed again, and a pending one keeps all but its decision. */
  lemma {:induction false} DecidedIsFrozen(q: Queue, events: seq<Event>, id: RowId)
    requires Inv(q) && id in q.reviews
    ensures id in Run(q, events).reviews
    ensures q.reviews[id].state != Pending ==> Run(q, events).reviews[id] == q.reviews[id]
    ensures var row := Run(q, events).reviews[id];
      row.(state := Pending, decidedBy := None, decidedAt := None) ==
        q.reviews[id].(state := Pending, decidedBy := None, decidedAt := None)
  {
    if events != [] {
      var before := events[..|events| - 1];
      DecidedIsFrozen(q, before, id);
      RunKeepsInv(q, before);
    }
  }

  /** Over any run a review is decided at most once: exactly once iff it is no longer pending. */
  lemma {:induction false} DecidedAtMostOnce(events: seq<Event>, id: RowId)
    ensures var q := Run(EMPTY, events);
      Decisions(EMPTY, events, id) == if id in q.reviews && q.reviews[id].state != Pending then 1 else 0
  {
    if events != [] {
      var before := events[..|events| - 1];
      DecidedAtMostOnce(before, id);
      RunKeepsInv(EMPTY, before);
    }
  }

  /** Event i of the run is a decision about this review and finds it pending. */
  ghost predicate FindsPending(events: seq<Event>, i: nat, id: RowId)
    requires i < |events|
  {
    var q := Run(EMPTY, events[..i]);
    events[i].Decide? && events[i].id == id && id in q.reviews && q.reviews[id].state == Pending
  }

  /** The event that found a review pending tells its state for ever: approved iff that was an approval, rejected iff
      it was a rejection, decided by whom and when the event says. Without such an event the review is pending. */
  lemma {:induction false} StateTellsTheDecision(events: seq<Event>, id: RowId)
    ensures forall i :: 0 <= i < |events| && FindsPending(events, i, id) ==>
      && id in Run(EMPTY, events).reviews
      && var row := Run(EMPTY, events).reviews[id];
      && (if events[i].approve then row.state == Approved else row.state == Rejected)
      && row.decidedBy == Some(events[i].who) && row.decidedAt == Some(events[i].now)
    ensures id in Run(EMPTY, events).reviews && Run(EMPTY, events).reviews[id].state != Pending ==>
      exists i :: 0 <= i < |events| && FindsPending(events, i, id)
  {
    if events != [] {
      var last := |events| - 1;
      var before := events[..last];
      StateTellsTheDecision(before, id);
      RunKeepsInv(EMPTY, before);
      forall i | 0 <= i < last ensures FindsPending(events, i, id) <==> FindsPending(before, i, id) {
        assert before[..i] == events[..i];
      }
      assert FindsPending(events, last, id) <==>
        events[last].Decide? && events[last].id == id && CanDecide(Run(EMPTY, before), id);
    }
  }

  function Named(q: Queue, identity: string): set<RowId> {
    set id | id in q.reviews && q.reviews[id].identity == Some(identity)
  }

  /** Once an identity is rejected it stays in the cache, and no run creates another row with it. */
  lemma {:induction false} RejectedIdentityIsClosed(q: Queue, events: seq<Event>, identity: string)
    requires Inv(q) && identity in q.rejections
    ensures identity in Run(q, events).rejections
    ensures Named(Run(q, events), identity) == Named(q, identity)
  {
    if events != [] {
      var before, e := events[..|events| - 1], events[|events| - 1];
      RejectedIdentityIsClosed(q, before, identity);
      RunKeepsInv(q, before);
      var p := Run(q, before);
      assert Named(Apply(p, e), identity) == Named(p, identity);
    }
  }

  /** The cache stops new rows only: an identity that was rejected can still come to be approved exactly when
      another row with it is pending. */
  lemma ApprovedAfterRejectionIff(q: Queue, identity: string)
    requires Inv(q) && identity in q.rejections
    ensures (exists events, id :: id in q.reviews && BecomesApproved(q, events, id, identity)) <==>
      (exists id :: id in Named(q, identity) && CanDecide(q, id))
  {
    if events, id :| id in q.reviews && BecomesApproved(q, events, id, identity) {
      DecidedIsFrozen(q, events, id);
      assert id in Named(q, identity) && CanDecide(q, id);
    }
    if id :| id in Named(q, identity) && CanDecide(q, id) {
      var events := [Decide(id, true, "", 0.0)];
      assert events[..0] == [] && Run(q, events) == Decided(q, id, true, "", 0.0);
      assert BecomesApproved(q, events, id, identity);
    }
  }

  ghost predicate BecomesApproved(q: Queue, events: seq<Event>, id: RowId, identity: string)
    requires id in q.reviews
  {
    && q.reviews[id].identity == Some(identity) && q.reviews[id].state != Approved
    && id in Run(q, events).reviews && Run(q, events).reviews[id].state == Approved
  }

  // ---------------------------------------------------------------- link candidates

  type Triple = (string, string, string)

  datatype Candidate = Candidate(
    triple: Triple, confidence: real, rule: string, state: State, createdAt: real, decidedAt: Option<real>)

  datatype Links = Links(rows: map<RowId, Candidate>, lastId: nat)

  function RowsOf(t: Links, triple: Triple): set<RowId> {
    set id | id in t.rows && t.rows[id].triple == triple
  }

  /** INSERT ... ON CONFLICT(from_uid, to_uid, relation) DO NOTHING. */
  function Proposed(t: Links, triple: Triple, rule: string, confidence: real, now: real): Links {
    if RowsOf(t, triple) != {} then t
    else Links(t.rows[RowId(t.lastId + 1) := Candidate(triple, confidence, rule, Pending, now, None)], t.lastId + 1)
  }

  predicate CanDecideLink(t: Links, id: RowId) { id in t.rows && t.rows[id].state == Pending }

  function DecidedLink(t: Links, id: RowId, approve: bool, now: real): Links {
    if !CanDecideLink(t, id) then t
    else t.(rows := t.rows[id := t.rows[id].(state := if approve then Approved else Rejected, decidedAt := Some(now))])
  }

  datatype LinkEvent =
    | Propose(triple: Triple, rule: string, confidence: real, now: real)
    | DecideLink(id: RowId, approve: bool, now: real)

  function ApplyLink(t: Links, e: LinkEvent): Links {
    match e
    case Propose(triple, rule, confidence, now) => Proposed(t, triple, rule, confidence, now)
    case DecideLink(id, approve, now) => DecidedLink(t, id, approve, now)
  }

  function RunLinks(t: Links, events: seq<LinkEvent>): Links {
    if events == [] then t else ApplyLink(RunLinks(t, events[..|events| - 1]), events[|events| - 1])
  }

  ghost predicate LinksInv(t: Links) {
    && (forall id :: id in t.rows ==> 1 <= id.n <= t.lastId)
    && (forall x, y :: x in t.rows && y in t.rows && t.rows[x].triple == t.rows[y].triple ==> x == y)
  }

  lemma ProposeKeepsInv(t: Links, triple: Triple, rule: string, confidence: real, now: real)
    requires LinksInv(t)
    ensures var t' := Proposed(t, triple, rule, confidence, now);
      LinksInv(t') && RowsOf(t', triple) != {} && forall id :: id in t.rows ==>
        id in t'.rows && t'.rows[id] == t.rows[id]
  {
    var t' := Proposed(t, triple, rule, confidence, now);
    if RowsOf(t, triple) == {} {
      assert forall id :: id in t.rows && t.rows[id].triple == triple ==> id in RowsOf(t, triple);
      assert RowId(t.lastId + 1) in RowsOf(t', triple);
    }
  }

  lemma {:induction false} LinksKeepInv(t: Links, events: seq<LinkEvent>)
    requires LinksInv(t)
    ensures LinksInv(RunLinks(t, events))
  {
    if events != [] {
      var before, e := events[..|events| - 1], events[|events| - 1];
      LinksKeepInv(t, before);
      if e.Propose? { ProposeKeepsInv(RunLinks(t, before), e.triple, e.rule, e.confidence, e.now); }
    }
  }

  /** A proposed triple has one row for ever: every re-proposal in any run finds that id, and no
      re-proposal and no second decision changes a row once decided. */
  lemma {:induction false} TripleHasOneRow(t: Links, events: seq<LinkEvent>, id: RowId)
    requires LinksInv(t) && id in t.rows
    ensures RowsOf(RunLinks(t, events), t.rows[id].triple) == {id}
    ensures t.rows[id].state != Pending ==> RunLinks(t, events).rows[id] == t.rows[id]
  {
    LinksKeepInv(t, events);
    if events == [] {
      assert id in RowsOf(t, t.rows[id].triple);
    } else {
      var before, e := events[..|events| - 1], events[|events| - 1];
      TripleHasOneRow(t, before, id);
      LinksKeepInv(t, before);
      var p := RunLinks(t, before);
      assert id in RowsOf(p, t.rows[id].triple);
      if e.Propose? { ProposeKeepsInv(p, e.triple, e.rule, e.confidence, e.now); }
      assert id in RowsOf(RunLinks(t, events), t.rows[id].triple);
    }
  }

  function LinkDecisions(t: Links, events: seq<LinkEvent>, id: RowId): nat {
    if events == [] then 0
    else
      var before, e := events[..|events| - 1], events[|events| - 1];
      LinkDecisions(t, before, id) +
      if e.DecideLink? && e.id == id && CanDecideLink(RunLinks(t, before), id) then 1 else 0
  }

  /** Over any run a candidate is decided at most once: exactly once iff it is no longer pending. */
  lemma {:induction false} LinkDecidedAtMostOnce(events: seq<LinkEvent>, id: RowId)
    ensures var t := RunLinks(Links(map[], 0), events);
      LinkDecisions(Links(map[], 0), events, id) == if id in t.rows && t.rows[id].state != Pending then 1 else 0
  {
    if events != [] {
      var before, e := events[..|events| - 1], events[|events| - 1];
      LinkDecidedAtMostOnce(before, id);
      LinksKeepInv(Links(map[], 0), before);
      if e.Propose? { ProposeKeepsInv(RunLinks(Links(map[], 0), before), e.triple, e.rule, e.confidence, e.now); }
    }
  }

  /** Event i of the run is a decision about this candidate and finds it pending. */
  ghost predicate FindsLinkPending(events: seq<LinkEvent>, i: nat, id: RowId)
    requires i < |events|
  {
    var t := RunLinks(Links(map[], 0), events[..i]);
    events[i].DecideLink? && events[i].id == id && id in t.rows && t.rows[id].state == Pending
  }

  /** The event that found a candidate pending tells its state for ever: approved iff that was an approval, rejected
      iff it was a rejection. Without such an event the candidate is pending. */
  lemma {:induction false} LinkStateTellsTheDecision(events: seq<LinkEvent>, id: RowId)
    ensures var rows := RunLinks(Links(map[], 0), events).rows;
      forall i :: 0 <= i < |events| && FindsLinkPending(events, i, id) ==>
        && id in rows && rows[id].decidedAt == Some(events[i].now)
        && (if events[i].approve then rows[id].state == Approved else rows[id].state == Rejected)
    ensures var rows := RunLinks(Links(map[], 0), events).rows;
      id in rows && rows[id].state != Pending ==> exists i :: 0 <= i < |events| && FindsLinkPending(events, i, id)
  {
    if events != [] {
      var last := |events| - 1;
      var before := events[..last];
      LinkStateTellsTheDecision(before, id);
      LinksKeepInv(Links(map[], 0), before);
      forall i | 0 <= i < last ensures FindsLinkPending(events, i, id) <==> FindsLinkPending(before, i, id) {
        assert before[..i] == events[..i];
      }
      assert FindsLinkPending(events, last, id) <==>
        events[last].DecideLink? && events[last].id == id && CanDecideLink(RunLinks(Links(map[], 0), before), id);
    }
  }
}

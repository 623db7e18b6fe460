/** Reviewing recommendations: the model's status changes, the row lock, and the pending-row index. */
module RecommendationReview {
  import opened Options

  datatype Status = Pending | Accepted | Rejected | Deferred | Expired | Executed

  /** A stored recommendation; `expiresAt` and `now` are seconds on the database clock. */
  datatype Row = Row(
    recommendationType: string,
    entityType: Option<string>,
    entityId: Option<Id>,
    status: Status,
    reviewedBy: Option<Id>,
    expiresAt: int)

  /** An audit event of one recommendation; its event_type is "recommendation_" and the after status. */
  datatype Event = Event(recommendation: Id, actor: Option<Id>, before: Status, after: Status)

  datatype Action = Accept | Reject | Defer

  function Outcome(action: Action): Status {
    match action
    case Accept => Accepted
    case Reject => Rejected
    case Defer => Deferred
  }

  /** The status a review must end in, action by action. */
  predicate StatusIs(status: Status, action: Action) {
    && (action == Accept <==> status == Accepted)
    && (action == Reject <==> status == Rejected)
    && (action == Defer <==> status == Deferred)
  }

  // ── The model's own methods ────────────────────────────────────────────────

  /** accept!, reject! and defer! write whatever the status was: they do not check it. */
  function Reviewed(row: Row, action: Action, user: Id): Row {
    row.(status := Outcome(action), reviewedBy := Some(user))
  }

  function ReviewEvent(id: Id, row: Row, action: Action, user: Id): Event {
    Event(id, Some(user), row.status, Outcome(action))
  }

  function ExecutedEvent(id: Id, row: Row): Event {
    Event(id, None, row.status, Executed)
  }

  class AuditLog {
    var events: seq<Event>

    constructor ()
      ensures events == []
    {
      events := [];
    }
  }

  /** A loaded record; its methods change it and append to the audit log in one transaction. */
  class Recommendation {
    const id: Id
    var row: Row

    constructor (id: Id, row: Row)
      ensures this.id == id && this.row == row
    {
      this.id := id;
      this.row := row;
    }

    method Review(action: Action, user: Id, log: AuditLog)
      modifies `row, log
      ensures row == Reviewed(old(row), action, user)
      ensures log.events == old(log.events) + [ReviewEvent(id, old(row), action, user)]
      ensures StatusIs(row.status, action) && row.reviewedBy == Some(user)
      ensures log.events[|old(log.events)|] == Event(id, Some(user), old(row).status, row.status)
    {
      var beforeStatus := row.status;
      row := row.(status := Outcome(action), reviewedBy := Some(user));
      log.events := log.events + [Event(id, Some(user), beforeStatus, Outcome(action))];
    }

    method MarkExecuted(log: AuditLog)
      modifies `row, log
      ensures row == old(row).(status := Executed)
      ensures log.events == old(log.events) + [ExecutedEvent(id, old(row))]
      ensures log.events[|old(log.events)|] == Event(id, None, old(row).status, Executed)
    {
      var beforeStatus := row.status;
      row := row.(status := Executed);
      log.events := log.events + [Event(id, None, beforeStatus, Executed)];
    }

    /** The body of the controller's with_lock block: re-check, then act. */
    method ReviewUnlessDecided(action: Action, user: Id, log: AuditLog) returns (already: Option<Status>)
      modifies `row, log
      ensures already == if old(row).status == Pending then None else Some(old(row).status)
      ensures already.Some? ==> row == old(row) && log.events == old(log.events)
      ensures already.None? ==>
                && row == Reviewed(old(row), action, user)
                && log.events == old(log.events) + [Event(id, Some(user), Pending, row.status)]
                && StatusIs(row.status, action) && row.reviewedBy == Some(user)
    {
      if row.status != Pending { return Some(row.status); }
      Review(action, user, log);
      return None;
    }
  }

  // ── What the audit log must say about a row ────────────────────────────────

  /** The complete audit history of a row in a given state: none, one review, or a review and an execution. */
  function Trail(id: Id, row: Row): seq<Event> {
    match row.status
    case Pending => []
    case Expired => []
    case Executed => [Event(id, row.reviewedBy, Pending, Accepted), Event(id, None, Accepted, Executed)]
    case decided => [Event(id, row.reviewedBy, Pending, decided)]
  }

  function EventsOf(log: seq<Event>, id: Id): seq<Event> {
    if log == [] then []
    else
      var n := |log| - 1;
      EventsOf(log[..n], id) + (if log[n].recommendation == id then [log[n]] else [])
  }

  /** Reviewing keeps the history right exactly when the row was pending: the re-check is what makes it so. */
  lemma ReviewKeepsTrailIff(id: Id, row: Row, action: Action, user: Id)
    ensures Trail(id, row) + [ReviewEvent(id, row, action, user)] == Trail(id, Reviewed(row, action, user)) <==>
            row.status == Pending
  {
    var extended := Trail(id, row) + [ReviewEvent(id, row, action, user)];
    if row.status in {Pending, Expired} {
      assert extended == [ReviewEvent(id, row, action, user)];
    } else {
      assert |extended| > |Trail(id, Reviewed(row, action, user))|;
    }
  }

  // ── Threads over the shared table ──────────────────────────────────────────

  /** What a request will do once it holds the lock; `succeeds` is the executor's verdict. */
  datatype Request = Review(action: Action, user: Id) | Execute(user: Id, succeeds: bool)

  /** A transaction: idle, holding the lock with the row it reloaded, or with uncommitted writes. */
  datatype Thread =
    | Idle
    | Holding(id: Id, row: Row, request: Request)
    | Written(id: Id, row: Row, events: seq<Event>)

  datatype State = State(table: map<Id, Row>, log: seq<Event>, locks: map<Id, nat>, threads: map<nat, Thread>)

  datatype Step =
    | Create(id: Id, row: Row, seenDuplicate: bool)
    | Lock(thread: nat, id: Id, request: Request)
    | Decide(thread: nat)
    | Commit(thread: nat)
    | Rollback(thread: nat)
    | ExpireStale(id: Id, now: int)

  function ThreadAt(st: State, t: nat): Thread {
    if t in st.threads then st.threads[t] else Idle
  }

  /** idx_recommendations_pending_dedup: two pending rows with the same triple, NULLs being distinct. */
  predicate Duplicates(a: Row, b: Row) {
    && a.status == Pending && b.status == Pending
    && a.recommendationType == b.recommendationType
    && a.entityType.Some? && a.entityType == b.entityType
    && a.entityId.Some? && a.entityId == b.entityId
  }

  predicate IndexAdmits(table: map<Id, Row>, row: Row) {
    forall id <- table :: !Duplicates(table[id], row)
  }

  function Release(st: State, t: nat): State {
    var thread := ThreadAt(st, t);
    if thread.Idle? then st
    else st.(locks := st.locks - {thread.id}, threads := st.threads - {t})
  }

  /** What the locked block writes, or nothing when the status refuses or the executor fails. */
  function Writes(id: Id, row: Row, request: Request): Option<(Row, seq<Event>)> {
    match request
    case Review(action, user) =>
      if row.status != Pending then None
      else Some((Reviewed(row, action, user), [ReviewEvent(id, row, action, user)]))
    case Execute(user, succeeds) =>
      if row.status !in {Pending, Accepted} || !succeeds then None
      else
        var accepted := if row.status == Pending then Reviewed(row, Accept, user) else row;
        var events := if row.status == Pending then [ReviewEvent(id, row, Accept, user)] else [];
        Some((accepted.(status := Executed), events + [ExecutedEvent(id, accepted)]))
  }

  /** One atomic step; a step that is not enabled leaves the state alone. */
  function Apply(st: State, step: Step): State {
    match step
    case Create(id, row, seenDuplicate) =>
      if id in st.table || row.status != Pending || row.reviewedBy.Some? then st
      else if seenDuplicate || !IndexAdmits(st.table, row) then st
      else st.(table := st.table[id := row])
    case Lock(t, id, request) =>
      if !ThreadAt(st, t).Idle? || id !in st.table || id in st.locks then st
      else st.(locks := st.locks[id := t], threads := st.threads[t := Holding(id, st.table[id], request)])
    case Decide(t) =>
      if !ThreadAt(st, t).Holding? then st
      else
        var held := ThreadAt(st, t);
        (match Writes(held.id, held.row, held.request)
         case None => Release(st, t)
         case Some((row, events)) => st.(threads := st.threads[t := Written(held.id, row, events)]))
    case Commit(t) =>
      if !ThreadAt(st, t).Written? then st
      else
        var w := ThreadAt(st, t);
        Release(st.(table := st.table[w.id := w.row], log := st.log + w.events), t)
    case Rollback(t) => Release(st, t)
    case ExpireStale(id, now) =>
      if id in st.table && id !in st.locks && st.table[id].status == Pending && st.table[id].expiresAt <= now
      then st.(table := st.table[id := st.table[id].(status := Expired)])
      else st
  }

  function Exec(st: State, steps: seq<Step>): State
    decreases steps
  {
    if steps == [] then st else Exec(Apply(st, steps[0]), steps[1..])
  }

  const EMPTY := State(map[], [], map[], map[])

  // ── Invariants ─────────────────────────────────────────────────────────────

  ghost predicate ThreadOk(st: State, t: nat, thread: Thread) {
    match thread
    case Idle => true
    case Holding(id, row, _) => Owns(st, t, id) && row == st.table[id]
    case Written(id, row, events) =>
      && Owns(st, t, id)
      && row.status != Pending && ReviewerRecorded(row)
      && (forall e <- events :: e.recommendation == id)
      && Trail(id, st.table[id]) + events == Trail(id, row)
  }

  ghost predicate Owns(st: State, t: nat, id: Id) {
    id in st.table && id in st.locks && st.locks[id] == t
  }

  /** A reviewer is recorded on exactly the rows that left "pending" by a review. */
  predicate ReviewerRecorded(row: Row) {
    row.reviewedBy.None? <==> row.status in {Pending, Expired}
  }

  ghost predicate HistoryIs(st: State, id: Id) {
    && EventsOf(st.log, id) == (if id in st.table then Trail(id, st.table[id]) else [])
    && (id in st.table ==> ReviewerRecorded(st.table[id]))
  }

  ghost predicate OnePending(st: State) {
    forall a, b :: a in st.table && b in st.table && a != b ==> !Duplicates(st.table[a], st.table[b])
  }

  ghost predicate Inv(st: State) {
    && (forall t <- st.threads :: ThreadOk(st, t, st.threads[t]))
    && (forall id :: HistoryIs(st, id))
    && OnePending(st)
  }

  lemma {:induction false} EventsOfAppend(log: seq<Event>, events: seq<Event>, id: Id)
    ensures (forall e <- events :: e.recommendation == id) ==> EventsOf(log + events, id) == EventsOf(log, id) + events
    ensures (forall e <- events :: e.recommendation != id) ==> EventsOf(log + events, id) == EventsOf(log, id)
  {
    if events == [] {
      assert log + events == log;
    } else {
      var n := |events| - 1;
      assert events == events[..n] + [events[n]];
      assert (log + events)[..|log| + n] == log + events[..n];
      EventsOfAppend(log, events[..n], id);
    }
  }

  /** What the block writes extends the row's history by exactly its events and leaves it decided. */
  lemma WritesExtendTrail(id: Id, row: Row, request: Request)
    requires Writes(id, row, request).Some? && ReviewerRecorded(row)
    ensures var (after, events) := Writes(id, row, request).value;
            && after.status != Pending && ReviewerRecorded(after)
            && (forall e <- events :: e.recommendation == id)
            && Trail(id, row) + events == Trail(id, after)
  {
  }

  lemma DecideKeepsInv(st: State, t: nat)
    requires Inv(st)
    ensures Inv(Apply(st, Decide(t)))
  {
    var after := Apply(st, Decide(t));
    if ThreadAt(st, t).Holding? {
      var held := ThreadAt(st, t);
      assert HistoryIs(st, held.id) && ThreadOk(st, t, held);
      if Writes(held.id, held.row, held.request).Some? {
        WritesExtendTrail(held.id, held.row, held.request);
      }
      forall x | x in after.threads ensures ThreadOk(after, x, after.threads[x]) {
        if x != t { assert ThreadOk(st, x, st.threads[x]); }
      }
      forall id ensures HistoryIs(after, id) { assert HistoryIs(st, id); }
    }
  }

  lemma CommitKeepsInv(st: State, t: nat)
    requires Inv(st)
    ensures Inv(Apply(st, Commit(t)))
  {
    var after := Apply(st, Commit(t));
    if ThreadAt(st, t).Written? {
      var w := ThreadAt(st, t);
      assert ThreadOk(st, t, w);
      forall x | x in after.threads ensures ThreadOk(after, x, after.threads[x]) {
        assert ThreadOk(st, x, st.threads[x]);
      }
      forall id ensures HistoryIs(after, id) {
        assert HistoryIs(st, id);
        EventsOfAppend(st.log, w.events, id);
      }
    }
  }

  lemma CreateKeepsInv(st: State, id: Id, row: Row, seenDuplicate: bool)
    requires Inv(st)
    ensures Inv(Apply(st, Create(id, row, seenDuplicate)))
  {
    var after := Apply(st, Create(id, row, seenDuplicate));
    forall t | t in after.threads ensures ThreadOk(after, t, after.threads[t]) {
      assert ThreadOk(st, t, st.threads[t]);
    }
    forall x ensures HistoryIs(after, x) { assert HistoryIs(st, x); }
  }

  lemma LockKeepsInv(st: State, t: nat, id: Id, request: Request)
    requires Inv(st)
    ensures Inv(Apply(st, Lock(t, id, request)))
  {
    var after := Apply(st, Lock(t, id, request));
    forall x | x in after.threads ensures ThreadOk(after, x, after.threads[x]) {
      if x in st.threads { assert ThreadOk(st, x, st.threads[x]); }
    }
    forall x ensures HistoryIs(after, x) { assert HistoryIs(st, x); }
  }

  lemma RollbackKeepsInv(st: State, t: nat)
    requires Inv(st)
    ensures Inv(Apply(st, Rollback(t)))
  {
    var after := Apply(st, Rollback(t));
    forall x | x in after.threads ensures ThreadOk(after, x, after.threads[x]) {
      assert ThreadOk(st, x, st.threads[x]);
      if t in st.threads { assert ThreadOk(st, t, st.threads[t]); }
    }
    forall x ensures HistoryIs(after, x) { assert HistoryIs(st, x); }
  }

  lemma ExpireKeepsInv(st: State, id: Id, now: int)
    requires Inv(st)
    ensures Inv(Apply(st, ExpireStale(id, now)))
  {
    var after := Apply(st, ExpireStale(id, now));
    forall x | x in after.threads ensures ThreadOk(after, x, after.threads[x]) {
      assert ThreadOk(st, x, st.threads[x]);
    }
    forall x ensures HistoryIs(after, x) { assert HistoryIs(st, x); }
  }

  lemma StepKeepsInv(st: State, step: Step)
    requires Inv(st)
    ensures Inv(Apply(st, step))
  {
    match step
    case Create(id, row, seenDuplicate) => CreateKeepsInv(st, id, row, seenDuplicate);
    case Lock(t, id, request) => LockKeepsInv(st, t, id, request);
    case Decide(t) => DecideKeepsInv(st, t);
    case Commit(t) => CommitKeepsInv(st, t);
    case Rollback(t) => RollbackKeepsInv(st, t);
    case ExpireStale(id, now) => ExpireKeepsInv(st, id, now);
  }

  lemma {:induction false} RunKeepsInv(st: State, steps: seq<Step>)
    requires Inv(st)
    ensures Inv(Exec(st, steps))
    decreases steps
  {
    if steps == [] {
    } else {
      StepKeepsInv(st, steps[0]);
      RunKeepsInv(Apply(st, steps[0]), steps[1..]);
    }
  }

  /** The review events of a recommendation: those whose after status is a review outcome. */
  predicate IsReview(e: Event) {
    e.after in {Accepted, Rejected, Deferred}
  }

  /**
   * For every interleaving of creations, locked reviews and executions, rollbacks and expiries: a recommendation
   * has a review event if and only if it was reviewed, never two, and that event found it pending.
   */
  lemma ReviewedAtMostOnce(steps: seq<Step>, id: Id)
    ensures var st := Exec(EMPTY, steps);
            var events := EventsOf(st.log, id);
            && (forall i, j | 0 <= i < |events| && 0 <= j < |events| ::
                  IsReview(events[i]) && IsReview(events[j]) ==> i == j)
            && ((exists e <- events :: IsReview(e)) <==> id in st.table && st.table[id].reviewedBy.Some?)
            && (forall e <- events :: IsReview(e) ==> e.before == Pending && e.actor == st.table[id].reviewedBy)
            && (forall e <- events :: !IsReview(e) ==> e.before == Accepted && e.after == Executed)
  {
    RunKeepsInv(EMPTY, steps);
    var st := Exec(EMPTY, steps);
    assert HistoryIs(st, id);
    var events := EventsOf(st.log, id);
    if id in st.table && st.table[id].reviewedBy.Some? {
      assert events[0] in events && IsReview(events[0]);
    }
  }

  /** Every reachable table has at most one pending row per non-null triple, whatever the pre-checks saw. */
  lemma OnePendingPerEntity(steps: seq<Step>, a: Id, b: Id)
    requires var t := Exec(EMPTY, steps).table; a in t && b in t && Duplicates(t[a], t[b])
    ensures a == b
  {
    RunKeepsInv(EMPTY, steps);
  }

  /** A creation whose pre-check saw nothing is refused exactly for a duplicate of a pending row: the index decides. */
  lemma CreationIsRefusedIff(steps: seq<Step>, id: Id, row: Row)
    requires id !in Exec(EMPTY, steps).table && row.status == Pending && row.reviewedBy.None?
    ensures var st := Exec(EMPTY, steps);
            && Apply(st, Create(id, row, true)) == st
            && Apply(st, Create(id, row, false)).table in {st.table, st.table[id := row]}
    ensures var st := Exec(EMPTY, steps);
            id !in Apply(st, Create(id, row, false)).table <==>
            && row.entityType.Some? && row.entityId.Some?
            && exists other <- st.table ::
                 && st.table[other].status == Pending
                 && st.table[other].recommendationType == row.recommendationType
                 && st.table[other].entityType == row.entityType
                 && st.table[other].entityId == row.entityId
  {
    var st := Exec(EMPTY, steps);
    forall other | other in st.table
      ensures Duplicates(st.table[other], row) <==>
              && row.entityType.Some? && row.entityId.Some?
              && st.table[other].status == Pending
              && st.table[other].recommendationType == row.recommendationType
              && st.table[other].entityType == row.entityType
              && st.table[other].entityId == row.entityId
    {
    }
  }

  // ── What a locked request does, whatever runs beside it ────────────────────

  predicate OfThread(step: Step, t: nat) {
    match step
    case Create(_, _, _) => false
    case Lock(u, _, _) => u == t
    case Decide(u) => u == t
    case Commit(u) => u == t
    case Rollback(u) => u == t
    case ExpireStale(_, _) => false
  }

  /** Thread t has locked the row and stands as given; the row and its history are as given. */
  ghost predicate Locked(st: State, t: nat, id: Id, thread: Thread, row: Row, events: seq<Event>) {
    && Inv(st) && Owns(st, t, id) && ThreadAt(st, t) == thread && !thread.Idle? && thread.id == id
    && st.table[id] == row && EventsOf(st.log, id) == events
  }

  lemma OtherStepKeepsLocked(st: State, t: nat, id: Id, thread: Thread, row: Row, events: seq<Event>, step: Step)
    requires Locked(st, t, id, thread, row, events) && !OfThread(step, t)
    ensures Locked(Apply(st, step), t, id, thread, row, events)
  {
    StepKeepsInv(st, step);
    match step {
      case Decide(u) => assert ThreadAt(st, u).Holding? ==> ThreadOk(st, u, st.threads[u]);
      case Rollback(u) => assert !ThreadAt(st, u).Idle? ==> ThreadOk(st, u, st.threads[u]);
      case Commit(u) =>
        if ThreadAt(st, u).Written? {
          assert ThreadOk(st, u, st.threads[u]);
          EventsOfAppend(st.log, ThreadAt(st, u).events, id);
        }
      case _ =>
    }
  }

  lemma {:induction false} OthersKeepLocked(st: State, t: nat, id: Id, thread: Thread, row: Row, events: seq<Event>,
                                            steps: seq<Step>)
    requires Locked(st, t, id, thread, row, events) && forall step <- steps :: !OfThread(step, t)
    ensures Locked(Exec(st, steps), t, id, thread, row, events)
    decreases steps
  {
    if steps == [] {
    } else {
      assert steps[0] in steps && forall step <- steps[1..] :: step in steps;
      OtherStepKeepsLocked(st, t, id, thread, row, events, steps[0]);
      OthersKeepLocked(Apply(st, steps[0]), t, id, thread, row, events, steps[1..]);
    }
  }

  /** An idle thread, an unlocked row. */
  ghost predicate CanLock(st: State, t: nat, id: Id) {
    Inv(st) && ThreadAt(st, t).Idle? && id in st.table && id !in st.locks
  }

  ghost predicate Others(t: nat, steps: seq<Step>) {
    forall step <- steps :: !OfThread(step, t)
  }

  /** The state after thread t has locked the row, others have run, and it has decided. */
  function Decided(st: State, t: nat, id: Id, request: Request, others: seq<Step>): State {
    Apply(Exec(Apply(st, Lock(t, id, request)), others), Decide(t))
  }

  lemma UntilDecided(st: State, t: nat, id: Id, request: Request, others: seq<Step>)
    requires CanLock(st, t, id) && Others(t, others)
    ensures var before := Exec(Apply(st, Lock(t, id, request)), others);
            Locked(before, t, id, Holding(id, st.table[id], request), st.table[id], EventsOf(st.log, id))
  {
    StepKeepsInv(st, Lock(t, id, request));
    var locked := Apply(st, Lock(t, id, request));
    OthersKeepLocked(locked, t, id, ThreadAt(locked, t), st.table[id], EventsOf(st.log, id), others);
  }

  lemma DecideKeepsLocked(st: State, t: nat, id: Id, row: Row, request: Request, log: seq<Event>)
    requires Locked(st, t, id, Holding(id, row, request), row, log) && Writes(id, row, request).Some?
    ensures var (after, events) := Writes(id, row, request).value;
            Locked(Apply(st, Decide(t)), t, id, Written(id, after, events), row, log)
  {
    StepKeepsInv(st, Decide(t));
  }

  lemma CommitTakesEffect(st: State, t: nat, id: Id, row: Row, after: Row, events: seq<Event>, log: seq<Event>)
    requires Locked(st, t, id, Written(id, after, events), row, log)
    ensures var end := Apply(st, Commit(t));
            id in end.table && end.table[id] == after && id !in end.locks && EventsOf(end.log, id) == log + events
  {
    assert ThreadOk(st, t, st.threads[t]);
    EventsOfAppend(st.log, events, id);
  }

  /** A request that writes takes effect at its commit, whatever others did before its decision and after it. */
  lemma WritesTakeEffect(st: State, t: nat, id: Id, request: Request, before: seq<Step>, after: seq<Step>)
    requires CanLock(st, t, id) && Others(t, before) && Others(t, after)
    requires Writes(id, st.table[id], request).Some?
    ensures var end := Apply(Exec(Decided(st, t, id, request, before), after), Commit(t));
            var (row, events) := Writes(id, st.table[id], request).value;
            && id in end.table && end.table[id] == row && id !in end.locks
            && EventsOf(end.log, id) == EventsOf(st.log, id) + events
  {
    var found, log := st.table[id], EventsOf(st.log, id);
    var (row, events) := Writes(id, found, request).value;
    UntilDecided(st, t, id, request, before);
    DecideKeepsLocked(Exec(Apply(st, Lock(t, id, request)), before), t, id, found, request, log);
    var decided := Decided(st, t, id, request, before);
    OthersKeepLocked(decided, t, id, Written(id, row, events), found, log, after);
    CommitTakesEffect(Exec(decided, after), t, id, found, row, events, log);
  }

  /** A request that writes nothing leaves the row and its history as they were and the lock free. */
  lemma RefusalHasNoEffect(st: State, t: nat, id: Id, request: Request, before: seq<Step>)
    requires CanLock(st, t, id) && Others(t, before) && Writes(id, st.table[id], request).None?
    ensures var end := Decided(st, t, id, request, before);
            && id in end.table && end.table[id] == st.table[id] && id !in end.locks
            && ThreadAt(end, t).Idle? && EventsOf(end.log, id) == EventsOf(st.log, id)
  {
    UntilDecided(st, t, id, request, before);
  }

  /** A review of a pending row stores its own outcome and reviewer, and adds the one event that says so. */
  lemma PendingReviewTakesEffect(
    st: State, t: nat, id: Id, action: Action, user: Id, before: seq<Step>, after: seq<Step>)
    requires CanLock(st, t, id) && Others(t, before) && Others(t, after) && st.table[id].status == Pending
    ensures var end := Apply(Exec(Decided(st, t, id, Review(action, user), before), after), Commit(t));
            && id in end.table && StatusIs(end.table[id].status, action) && end.table[id].reviewedBy == Some(user)
            && EventsOf(end.log, id) == [Event(id, Some(user), Pending, end.table[id].status)]
  {
    WritesTakeEffect(st, t, id, Review(action, user), before, after);
    assert HistoryIs(st, id);
  }

  /** A review of a row that is not pending changes nothing. */
  lemma DecidedReviewHasNoEffect(st: State, t: nat, id: Id, action: Action, user: Id, before: seq<Step>)
    requires CanLock(st, t, id) && Others(t, before) && st.table[id].status != Pending
    ensures var end := Decided(st, t, id, Review(action, user), before);
            id in end.table && end.table[id] == st.table[id] && EventsOf(end.log, id) == EventsOf(st.log, id)
  {
    RefusalHasNoEffect(st, t, id, Review(action, user), before);
  }

  /** An execution that succeeds ends a pending or accepted row executed, with an acceptance on record before it. */
  lemma ExecutionTakesEffect(st: State, t: nat, id: Id, user: Id, before: seq<Step>, after: seq<Step>)
    requires CanLock(st, t, id) && Others(t, before) && Others(t, after)
    requires st.table[id].status == Pending || st.table[id].status == Accepted
    ensures var end := Apply(Exec(Decided(st, t, id, Execute(user, true), before), after), Commit(t));
            var reviewer := if st.table[id].status == Pending then Some(user) else st.table[id].reviewedBy;
            && id in end.table && end.table[id].status == Executed && end.table[id].reviewedBy == reviewer
            && EventsOf(end.log, id) == [Event(id, reviewer, Pending, Accepted), Event(id, None, Accepted, Executed)]
  {
    WritesTakeEffect(st, t, id, Execute(user, true), before, after);
    assert HistoryIs(st, id);
  }

  /** An execution that fails, or of a row in any other status, changes nothing. */
  lemma ExecutionHasNoEffect(st: State, t: nat, id: Id, user: Id, succeeds: bool, before: seq<Step>)
    requires CanLock(st, t, id) && Others(t, before)
    requires !succeeds || (st.table[id].status != Pending && st.table[id].status != Accepted)
    ensures var end := Decided(st, t, id, Execute(user, succeeds), before);
            id in end.table && end.table[id] == st.table[id] && EventsOf(end.log, id) == EventsOf(st.log, id)
  {
    RefusalHasNoEffect(st, t, id, Execute(user, succeeds), before);
  }

  /** Only a pending, unlocked row whose time has come expires, and nothing else of it or of others changes. */
  lemma ExpiresIff(st: State, id: Id, now: int, other: Id)
    requires other in st.table
    ensures var after := Apply(st, ExpireStale(id, now));
            && after.log == st.log && after.table.Keys == st.table.Keys
            && after.table[other] ==
               if other == id && id !in st.locks && st.table[id].status == Pending && st.table[id].expiresAt <= now
               then st.table[id].(status := Expired) else st.table[other]
  {
  }
}

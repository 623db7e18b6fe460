/** When a signal is processed exactly once, if signals become visible in order. */
module CursorExactness {
  import opened Options
  import opened SignalCursor
  import opened CursorProtocol

  // ── Fetching from sorted rows ──────────────────────────────────────────────

  lemma {:induction false} SortedIsUnchanged(rows: seq<Signal>)
    requires StrictlyOrdered(rows)
    ensures OrderByKey(rows) == rows
  {
    if rows == [] {
    } else {
      SortedIsUnchanged(rows[1..]);
    }
  }

  lemma {:induction false} SelectOfSorted(m: Mark, rows: seq<Signal>)
    requires StrictlyOrdered(rows)
    ensures StrictlyOrdered(Select(m, rows))
    ensures forall s <- Select(m, rows) :: s in rows
  {
    if rows == [] {
    } else {
      SelectOfSorted(m, rows[1..]);
      var rest := Select(m, rows[1..]);
      forall i | 0 <= i < |rest| ensures Precedes(rows[0], rest[i]) {
        assert rest[i] in rows[1..];
      }
    }
  }

  lemma {:induction false} SelectIsSince(m: Mark, rows: seq<Signal>)
    ensures forall s <- Select(m, rows) :: Since(m, s)
  {
    if rows == [] {
    } else {
      SelectIsSince(m, rows[1..]);
    }
  }

  lemma {:induction false} SelectAll(m: Mark, rows: seq<Signal>)
    requires forall s <- rows :: Since(m, s)
    ensures Select(m, rows) == rows
  {
    if rows == [] {
    } else {
      SelectAll(m, rows[1..]);
    }
  }

  lemma {:induction false} SelectNone(m: Mark, rows: seq<Signal>)
    requires forall s <- rows :: !Since(m, s)
    ensures Select(m, rows) == []
  {
    if rows == [] {
    } else {
      SelectNone(m, rows[1..]);
    }
  }

  lemma {:induction false} SelectConcat(m: Mark, a: seq<Signal>, b: seq<Signal>)
    ensures Select(m, a + b) == Select(m, a) + Select(m, b)
  {
    if a == [] {
      assert a + b == b;
    } else {
      assert (a + b)[1..] == a[1..] + b;
      SelectConcat(m, a[1..], b);
    }
  }

  /** Selecting after a later mark from what an earlier mark selects. */
  lemma {:induction false} SelectTwice(init: Mark, m: Mark, rows: seq<Signal>)
    requires forall s :: Since(m, s) ==> Since(init, s)
    ensures Select(m, Select(init, rows)) == Select(m, rows)
  {
    if rows == [] {
    } else {
      var x, rest := rows[0], rows[1..];
      SelectTwice(init, m, rest);
      if Since(init, x) {
        SelectConcat(m, [x], Select(init, rest));
        assert Select(init, rows) == [x] + Select(init, rest);
        assert Select(m, [x]) == if Since(m, x) then [x] else [];
      } else {
        assert Select(init, rows) == Select(init, rest);
        assert Select(m, rows) == Select(m, rest);
      }
    }
  }

  lemma SelectBack(m: Mark, front: seq<Signal>, back: seq<Signal>)
    requires (forall s <- front :: !Since(m, s)) && (forall s <- back :: Since(m, s))
    ensures Select(m, front + back) == back
  {
    SelectConcat(m, front, back);
    SelectNone(m, front);
    SelectAll(m, back);
  }

  /** In a strictly sorted list, exactly the signals behind the k-th are after it. */
  lemma SelectRest(due: seq<Signal>, k: nat)
    requires StrictlyOrdered(due) && 0 < k <= |due|
    ensures Select(MarkOf(due[k - 1]), due) == due[k..]
  {
    var m, front, back := MarkOf(due[k - 1]), due[..k], due[k..];
    forall s | s in front ensures !Since(m, s) {
      var i :| 0 <= i < k && due[i] == s;
    }
    forall s | s in back ensures Since(m, s) {
      var i :| k <= i < |due| && due[i] == s;
    }
    SelectBack(m, front, back);
    assert front + back == due;
  }

  /** On sorted rows, the signals after the k-th due one are the rest of the due ones. */
  lemma DueAfter(init: Mark, m: Mark, rows: seq<Signal>, k: nat)
    requires StrictlyOrdered(rows)
    requires 0 < k <= |Select(init, rows)| && m == MarkOf(Select(init, rows)[k - 1])
    ensures Select(m, rows) == Select(init, rows)[k..]
  {
    var due := Select(init, rows);
    SelectOfSorted(init, rows);
    SelectIsSince(init, rows);
    assert due[k - 1] in due;
    SelectTwice(init, m, rows);
    SelectRest(due, k);
  }

  lemma SignalsSinceOnSorted(m: Mark, rows: seq<Signal>)
    requires StrictlyOrdered(rows)
    ensures SignalsSince(m, rows) == Select(m, rows)
    ensures StrictlyOrdered(Select(m, rows))
  {
    SelectOfSorted(m, rows);
    SortedIsUnchanged(Select(m, rows));
  }

  // ── Whatever is processed, everything due before it is ─────────────────────

  /** A mark is the initial one or that of a signal after it. */
  predicate MarkIsDue(init: Mark, m: Mark) {
    m == init || (m.lastSignalId.Some? && Since(init, Signal(m.lastIngestedAt, m.lastSignalId.value)))
  }

  ghost predicate WorkerInOrder(init: Mark, worker: Worker) {
    worker.Running? ==> Ordered(worker.batch) && forall s <- worker.batch :: Since(init, s)
  }

  /** Everything due that sorts before the i-th processed signal was processed before it. */
  ghost predicate ClosedAt(init: Mark, rows: seq<Signal>, log: seq<Signal>, i: nat)
    requires i < |log|
  {
    forall s <- rows :: Since(init, s) && Precedes(s, log[i]) ==> s in log[..i]
  }

  /** What every step keeps while signals become visible in increasing order. */
  ghost predicate InOrderInv(init: Mark, st: State) {
    && Inv(init, st) && StrictlyOrdered(st.rows)
    && (forall m <- st.past :: MarkIsDue(init, m))
    && (forall w <- st.workers :: WorkerInOrder(init, st.workers[w]))
    && (forall s <- st.processed :: Since(init, s))
    && forall i :: 0 <= i < |st.processed| ==> ClosedAt(init, st.rows, st.processed, i)
  }

  lemma ArrivalKeepsOrder(init: Mark, st: State, s: Signal)
    requires InOrderInv(init, st) && forall r <- st.rows :: Precedes(r, s)
    ensures InOrderInv(init, Apply(st, Arrive(s)))
  {
    InOrderArrivalIsSafe(init, st, s);
    StepKeepsInv(init, st, Arrive(s));
    var after := Apply(st, Arrive(s));
    forall i | 0 <= i < |after.processed| ensures ClosedAt(init, after.rows, after.processed, i) {
      assert ClosedAt(init, st.rows, st.processed, i);
      assert st.processed[i] in st.rows;
    }
  }

  lemma FetchKeepsOrder(init: Mark, st: State, w: nat, limit: nat)
    requires InOrderInv(init, st)
    ensures InOrderInv(init, Apply(st, Fetch(w, limit)))
  {
    StepKeepsInv(init, st, Fetch(w, limit));
    if WorkerAt(st, w).Loaded? {
      var m := WorkerAt(st, w).mark;
      assert WorkerOk(init, st, st.workers[w]);
      SignalsSinceIsTheQuery(m, st.rows);
      var batch := Take(SignalsSince(m, st.rows), limit);
      assert WorkerInOrder(init, Running(batch, 0)) by {
        forall s | s in batch ensures Since(init, s) { assert s in SignalsSince(m, st.rows); }
      }
    }
  }

  /** The next signal of a batch has everything due before it processed already. */
  lemma NextIsClosed(init: Mark, st: State, w: nat, s: Signal)
    requires InOrderInv(init, st) && WorkerAt(st, w).Running? && WorkerAt(st, w).done < |WorkerAt(st, w).batch|
    requires s in st.rows && Since(init, s) && Precedes(s, WorkerAt(st, w).batch[WorkerAt(st, w).done])
    ensures s in st.processed
  {
    var batch, done := WorkerAt(st, w).batch, WorkerAt(st, w).done;
    assert WorkerOk(init, st, st.workers[w]) && WorkerInOrder(init, st.workers[w]);
    assert !Precedes(batch[|batch| - 1], batch[done]);
    if s in batch {
      var j :| 0 <= j < |batch| && batch[j] == s;
      assert j < done;
    }
  }

  lemma ProcessKeepsOrder(init: Mark, st: State, w: nat)
    requires InOrderInv(init, st)
    ensures InOrderInv(init, Apply(st, Process(w)))
  {
    StepKeepsInv(init, st, Process(w));
    var worker, after := WorkerAt(st, w), Apply(st, Process(w));
    if worker.Running? && worker.done < |worker.batch| {
      assert WorkerInOrder(init, st.workers[w]);
      var n := |st.processed|;
      forall i | 0 <= i <= n ensures ClosedAt(init, after.rows, after.processed, i) {
        assert after.processed[..i] == st.processed[..i];
        if i < n {
          assert ClosedAt(init, st.rows, st.processed, i);
        } else {
          assert st.processed[..n] == st.processed;
          forall s | s in st.rows && Since(init, s) && Precedes(s, after.processed[n]) ensures s in st.processed {
            NextIsClosed(init, st, w, s);
          }
        }
      }
    }
  }

  lemma AdvanceKeepsOrder(init: Mark, st: State, w: nat)
    requires InOrderInv(init, st)
    ensures InOrderInv(init, Apply(st, Advance(w)))
  {
    StepKeepsInv(init, st, Advance(w));
    if w in st.workers {
      assert WorkerInOrder(init, st.workers[w]);
    }
  }

  lemma StepKeepsOrder(init: Mark, st: State, step: Step)
    requires InOrderInv(init, st)
    requires step.Arrive? ==> forall r <- st.rows :: Precedes(r, step.signal)
    ensures InOrderInv(init, Apply(st, step))
  {
    match step
    case Arrive(s) => ArrivalKeepsOrder(init, st, s);
    case Load(w, m) => StepKeepsInv(init, st, step);
    case Fetch(w, limit) => FetchKeepsOrder(init, st, w, limit);
    case Process(w) => ProcessKeepsOrder(init, st, w);
    case Advance(w) => AdvanceKeepsOrder(init, st, w);
    case Crash(w) => StepKeepsInv(init, st, step);
  }

  lemma {:induction false} RunKeepsOrder(init: Mark, st: State, steps: seq<Step>)
    requires InOrderInv(init, st) && InOrderArrivals(st, steps)
    ensures InOrderInv(init, Exec(st, steps))
    decreases steps
  {
    if steps == [] {
    } else {
      StepKeepsOrder(init, st, steps[0]);
      RunKeepsOrder(init, Apply(st, steps[0]), steps[1..]);
    }
  }

  // ── Which step, and which run, repeats a signal ────────────────────────────

  ghost predicate Distinct(log: seq<Signal>) {
    forall i, j :: 0 <= i < j < |log| ==> log[i] != log[j]
  }

  /** Processing a signal repeats it exactly when something at or after it has been processed. */
  lemma ProcessRepeatsIff(init: Mark, st: State, w: nat)
    requires InOrderInv(init, st) && WorkerAt(st, w).Running? && WorkerAt(st, w).done < |WorkerAt(st, w).batch|
    ensures var s := WorkerAt(st, w).batch[WorkerAt(st, w).done];
            s in st.processed <==> exists p <- st.processed :: !Precedes(p, s)
  {
    var s := WorkerAt(st, w).batch[WorkerAt(st, w).done];
    assert WorkerOk(init, st, st.workers[w]) && WorkerInOrder(init, st.workers[w]);
    if p :| p in st.processed && !Precedes(p, s) && p != s {
      ProcessedBefore(init, st, s, p);
    }
  }

  lemma ProcessedBefore(init: Mark, st: State, s: Signal, p: Signal)
    requires InOrderInv(init, st) && s in st.rows && Since(init, s)
    requires p in st.processed && Precedes(s, p)
    ensures s in st.processed
  {
    var i :| 0 <= i < |st.processed| && st.processed[i] == p;
    assert ClosedAt(init, st.rows, st.processed, i);
    assert forall x <- st.processed[..i] :: x in st.processed;
  }

  /** In every in-order run of any number of workers, nothing was processed twice if and only if what was processed
      is a prefix of the sorted due signals. */
  lemma NothingRepeatsIffPrefix(init: Mark, steps: seq<Step>)
    requires InOrderArrivals(Start(init), steps)
    ensures var st := Exec(Start(init), steps);
            Distinct(st.processed) <==> st.processed <= SignalsSince(init, st.rows)
  {
    StartIsInOrder(init);
    RunKeepsOrder(init, Start(init), steps);
    DistinctIffPrefix(init, Exec(Start(init), steps));
  }

  lemma DistinctIffPrefix(init: Mark, st: State)
    requires InOrderInv(init, st)
    ensures Distinct(st.processed) <==> st.processed <= SignalsSince(init, st.rows)
  {
    SignalsSinceOnSorted(init, st.rows);
    ClosedInDue(init, st);
    ClosedIsDistinctIffPrefix(st.processed, SignalsSince(init, st.rows));
  }

  /** Signals of a sorted list, each after all before it, are distinct exactly when they are its first part. */
  lemma ClosedIsDistinctIffPrefix(log: seq<Signal>, due: seq<Signal>)
    requires StrictlyOrdered(due) && forall s <- log :: s in due
    requires forall i :: 0 <= i < |log| ==> ClosedIn(due, log, i)
    ensures Distinct(log) <==> log <= due
  {
    if Distinct(log) {
      forall i, j | 0 <= i < j < |log| ensures Precedes(log[i], log[j]) {
        assert ClosedIn(due, log, i);
        assert log[j] in log && log[j] !in log[..i];
      }
      SortedIsPrefix(log, due, |log|);
    }
  }

  lemma ClosedInDue(init: Mark, st: State)
    requires InOrderInv(init, st)
    ensures forall i :: 0 <= i < |st.processed| ==> ClosedIn(SignalsSince(init, st.rows), st.processed, i)
    ensures forall s <- st.processed :: s in SignalsSince(init, st.rows)
  {
    SignalsSinceIsTheQuery(init, st.rows);
    forall i | 0 <= i < |st.processed| ensures ClosedIn(SignalsSince(init, st.rows), st.processed, i) {
      assert ClosedAt(init, st.rows, st.processed, i);
    }
  }

  /** Sorted signals of a sorted list that skip none of it are its first part. */
  lemma {:induction false} SortedIsPrefix(log: seq<Signal>, due: seq<Signal>, n: nat)
    requires StrictlyOrdered(log) && StrictlyOrdered(due) && n <= |log|
    requires forall s <- log :: s in due
    requires forall i :: 0 <= i < |log| ==> ClosedIn(due, log, i)
    ensures n <= |due| && log[..n] == due[..n]
  {
    if n == 0 {
    } else {
      var k := n - 1;
      SortedIsPrefix(log, due, k);
      assert log[k] in log;
      var d :| 0 <= d < |due| && due[d] == log[k];
      assert forall j :: 0 <= j < k ==> log[j] == log[..k][j] == due[..k][j] == due[j];
      assert ClosedIn(due, log, k);
      assert due[if d < k then d else k] in due;
      assert d == k;
    }
  }

  ghost predicate ClosedIn(due: seq<Signal>, log: seq<Signal>, i: nat)
    requires i < |log|
  {
    forall s <- due :: Precedes(s, log[i]) ==> s in log[..i]
  }

  /** An undisturbed tick of a worker that loaded `m`, however stale, repeats a signal exactly when something after
      `m` has been processed. */
  lemma UndisturbedTickRepeatsIff(init: Mark, st: State, w: nat, m: Mark, limit: nat)
    requires InOrderInv(init, st) && WorkerAt(st, w) == Loaded(m) && limit > 0
    ensures var batch := Take(SignalsSince(m, st.rows), limit);
            && (batch != [] ==>
                  Exec(Apply(st, Fetch(w, limit)), Finish(w, |batch|)).processed == st.processed + batch)
            && ((exists s <- batch :: s in st.processed) <==> (exists p <- st.processed :: Since(m, p)))
  {
    var batch := Take(SignalsSince(m, st.rows), limit);
    assert WorkerOk(init, st, st.workers[w]);
    SignalsSinceIsTheQuery(m, st.rows);
    if batch != [] {
      FinishOutcome(Apply(st, Fetch(w, limit)), w);
      assert batch[0..] == batch;
    }
    if s :| s in batch && s in st.processed {
      assert s in SignalsSince(m, st.rows);
    }
    if p :| p in st.processed && Since(m, p) {
      FirstIsProcessed(init, st, m, p);
      assert batch[0] in batch;
    }
  }

  /** If anything after the mark has been processed, so has the first thing after it. */
  lemma FirstIsProcessed(init: Mark, st: State, m: Mark, p: Signal)
    requires InOrderInv(init, st) && m in st.past && p in st.processed && Since(m, p)
    ensures SignalsSince(m, st.rows) != [] && SignalsSince(m, st.rows)[0] in st.processed
  {
    SignalsSinceIsTheQuery(m, st.rows);
    var all := SignalsSince(m, st.rows);
    assert p in all;
    var i :| 0 <= i < |all| && all[i] == p;
    assert all[0] in all;
    if all[0] != p {
      assert !Precedes(p, all[0]);
      ProcessedBefore(init, st, all[0], p);
    }
  }

  // ── Runs in which attempts do not overlap ──────────────────────────────────

  ghost predicate AllIdle(st: State) {
    forall w <- st.workers :: st.workers[w].Idle?
  }

  /** Signals arrive in order, at any time; an attempt starts by loading the stored mark while no other is under way. */
  ghost predicate SerialStep(st: State, step: Step) {
    match step
    case Arrive(s) => forall r <- st.rows :: Precedes(r, s)
    case Load(w, m) => WorkerAt(st, w).Idle? && m in st.past ==> AllIdle(st) && m == st.mark
    case _ => true
  }

  ghost predicate SerialRun(st: State, steps: seq<Step>)
    decreases steps
  {
    steps != [] ==> SerialStep(st, steps[0]) && SerialRun(Apply(st, steps[0]), steps[1..])
  }

  /** A step that processes a signal. */
  predicate Works(st: State, step: Step) {
    step.Process? && WorkerAt(st, step.worker).Running?
    && WorkerAt(st, step.worker).done < |WorkerAt(st, step.worker).batch|
  }

  /** A crash of a worker that has processed part of its batch, or all of it without advancing the mark. */
  predicate FailsMidway(st: State, step: Step) {
    step.Crash? && WorkerAt(st, step.worker).Running? && WorkerAt(st, step.worker).done > 0
  }

  /** After an attempt failed having processed something, nothing is processed any more. */
  ghost predicate NoWorkAfterFailure(st: State, steps: seq<Step>, failed: bool)
    decreases steps
  {
    steps != [] ==>
      && !(failed && Works(st, steps[0]))
      && NoWorkAfterFailure(Apply(st, steps[0]), steps[1..], failed || FailsMidway(st, steps[0]))
  }

  ghost predicate NoneFailsMidway(st: State, steps: seq<Step>)
    decreases steps
  {
    steps != [] ==> !FailsMidway(st, steps[0]) && NoneFailsMidway(Apply(st, steps[0]), steps[1..])
  }

  /** Something past the stored mark has been processed. */
  ghost predicate Ahead(st: State) {
    exists p <- st.processed :: Since(st.mark, p)
  }

  ghost predicate ActiveOnly(st: State, w: nat) {
    forall v <- st.workers :: v != w ==> st.workers[v].Idle?
  }

  /** Where the one active worker stands; what is processed past the mark is of its own batch, unless one failed. */
  ghost predicate ActiveOk(st: State, worker: Worker, failed: bool) {
    match worker
    case Idle => Ahead(st) <==> failed
    case Loaded(m) => m == st.mark && (Ahead(st) <==> failed)
    case Running(batch, done) =>
      && batch != [] && done <= |batch| && StrictlyOrdered(batch) && (forall s <- batch :: Since(st.mark, s))
      && if failed then done == 0 && batch[0] in st.processed
         else forall p <- st.processed :: Since(st.mark, p) ==> p in batch[..done]
  }

  /** What a serial run keeps as long as it repeats nothing. */
  ghost predicate SerialInv(init: Mark, st: State, w: nat, failed: bool) {
    && InOrderInv(init, st) && ActiveOnly(st, w) && Distinct(st.processed)
    && ActiveOk(st, WorkerAt(st, w), failed)
  }

  lemma SerialStepKeepsOrder(init: Mark, st: State, step: Step)
    requires InOrderInv(init, st) && SerialStep(st, step)
    ensures InOrderInv(init, Apply(st, step))
  {
    StepKeepsOrder(init, st, step);
  }

  lemma TakeIsSorted(s: seq<Signal>, limit: nat)
    requires StrictlyOrdered(s)
    ensures StrictlyOrdered(Take(s, limit)) && Take(s, limit) <= s
  {
  }

  /** What is fetched is sorted and past the mark, and its first signal is a repetition if anything is ahead. */
  lemma FetchedIsOk(init: Mark, st: State, limit: nat, failed: bool, batch: seq<Signal>)
    requires InOrderInv(init, st) && (Ahead(st) <==> failed)
    requires batch == Take(SignalsSince(st.mark, st.rows), limit) != []
    ensures ActiveOk(st, Running(batch, 0), failed)
  {
    SignalsSinceOnSorted(st.mark, st.rows);
    SignalsSinceIsTheQuery(st.mark, st.rows);
    TakeIsSorted(SignalsSince(st.mark, st.rows), limit);
    forall s | s in batch ensures Since(st.mark, s) { assert s in SignalsSince(st.mark, st.rows); }
    if failed {
      var p :| p in st.processed && Since(st.mark, p);
      FirstIsProcessed(init, st, st.mark, p);
    }
  }

  lemma FetchKeepsSerial(init: Mark, st: State, w: nat, failed: bool, limit: nat)
    requires SerialInv(init, st, w, failed)
    ensures SerialInv(init, Apply(st, Fetch(w, limit)), w, failed)
  {
    SerialStepKeepsOrder(init, st, Fetch(w, limit));
    if WorkerAt(st, w).Loaded? {
      var batch := Take(SignalsSince(st.mark, st.rows), limit);
      if batch != [] {
        FetchedIsOk(init, st, limit, failed, batch);
      }
    }
  }

  /** The next signal of a batch is new unless an attempt has failed. */
  lemma NextIsNew(st: State, batch: seq<Signal>, done: nat)
    requires ActiveOk(st, Running(batch, done), false) && done < |batch|
    ensures batch[done] !in st.processed
  {
    assert batch[done] in batch;
    assert batch[done] !in batch[..done];
  }

  lemma ProcessKeepsSerial(init: Mark, st: State, w: nat)
    requires SerialInv(init, st, w, false) && Works(st, Process(w))
    ensures SerialInv(init, Apply(st, Process(w)), w, false)
  {
    SerialStepKeepsOrder(init, st, Process(w));
    var batch, done := WorkerAt(st, w).batch, WorkerAt(st, w).done;
    NextIsNew(st, batch, done);
    assert batch[..done + 1] == batch[..done] + [batch[done]];
  }

  /** After a failure the next signal processed is a repetition. */
  lemma ProcessAfterFailure(init: Mark, st: State, w: nat)
    requires SerialInv(init, st, w, true) && Works(st, Process(w))
    ensures !Distinct(Apply(st, Process(w)).processed)
  {
    var b := WorkerAt(st, w).batch[0];
    var log := Apply(st, Process(w)).processed;
    var i :| 0 <= i < |st.processed| && st.processed[i] == b;
    assert log[i] == log[|st.processed|];
  }

  /** A mark moved to the last signal of a batch leaves nothing of it ahead. */
  lemma NothingIsAhead(m: Mark, log: seq<Signal>, batch: seq<Signal>)
    requires batch != [] && StrictlyOrdered(batch) && (forall s <- batch :: Since(m, s))
    requires forall p <- log :: Since(m, p) ==> p in batch
    ensures Advanced(m, batch[|batch| - 1]) == MarkOf(batch[|batch| - 1])
    ensures forall p <- log :: !Since(MarkOf(batch[|batch| - 1]), p)
  {
    var last := batch[|batch| - 1];
    assert last in batch;
    ReadingsOfNullDiffer(m, last);
    forall p | p in log ensures !Since(MarkOf(last), p) {
      if Since(m, p) { var i :| 0 <= i < |batch| && batch[i] == p; }
    }
  }

  lemma AdvanceKeepsSerial(init: Mark, st: State, w: nat, failed: bool)
    requires SerialInv(init, st, w, failed)
    ensures SerialInv(init, Apply(st, Advance(w)), w, failed)
  {
    SerialStepKeepsOrder(init, st, Advance(w));
    var worker := WorkerAt(st, w);
    if worker.Running? && worker.done == |worker.batch| {
      assert worker.batch[..worker.done] == worker.batch;
      NothingIsAhead(st.mark, st.processed, worker.batch);
    }
  }

  lemma CrashKeepsSerial(init: Mark, st: State, w: nat, failed: bool)
    requires SerialInv(init, st, w, failed)
    ensures SerialInv(init, Apply(st, Crash(w)), w, failed || FailsMidway(st, Crash(w)))
  {
    SerialStepKeepsOrder(init, st, Crash(w));
    var worker, after := WorkerAt(st, w), Apply(st, Crash(w));
    if worker.Running? {
      assert WorkerOk(init, st, st.workers[w]);
      assert worker.batch[0] in worker.batch;
      if failed || worker.done > 0 {
        assert worker.batch[0] in after.processed && Since(after.mark, worker.batch[0]);
      }
    }
  }

  /** A step of a worker that is not the active one changes nothing but who is idle. */
  lemma IdleStepKeepsSerial(init: Mark, st: State, w: nat, failed: bool, step: Step)
    requires SerialInv(init, st, w, failed) && !step.Arrive? && !step.Load? && step.worker != w
    ensures SerialInv(init, Apply(st, step), w, failed)
    ensures !Works(st, step) && !FailsMidway(st, step)
  {
    assert WorkerAt(st, step.worker).Idle?;
    SerialStepKeepsOrder(init, st, step);
  }

  lemma LoadKeepsSerial(init: Mark, st: State, w: nat, failed: bool, v: nat, m: Mark) returns (active: nat)
    requires SerialInv(init, st, w, failed) && SerialStep(st, Load(v, m))
    ensures SerialInv(init, Apply(st, Load(v, m)), active, failed)
  {
    SerialStepKeepsOrder(init, st, Load(v, m));
    if WorkerAt(st, v).Idle? && m in st.past {
      assert WorkerAt(st, w).Idle?;
      active := v;
    } else {
      active := w;
    }
  }

  lemma StepKeepsSerial(init: Mark, st: State, w: nat, failed: bool, step: Step) returns (active: nat)
    requires SerialInv(init, st, w, failed) && SerialStep(st, step) && !(failed && Works(st, step))
    ensures SerialInv(init, Apply(st, step), active, failed || FailsMidway(st, step))
  {
    active := w;
    match step {
      case Arrive(s) => SerialStepKeepsOrder(init, st, step);
      case Load(v, m) => active := LoadKeepsSerial(init, st, w, failed, v, m);
      case _ =>
        if step.worker != w {
          IdleStepKeepsSerial(init, st, w, failed, step);
        } else {
          match step {
            case Fetch(_, limit) => FetchKeepsSerial(init, st, w, failed, limit);
            case Process(_) => if Works(st, step) { ProcessKeepsSerial(init, st, w); }
            case Advance(_) => AdvanceKeepsSerial(init, st, w, failed);
            case Crash(_) => CrashKeepsSerial(init, st, w, failed);
          }
        }
    }
  }

  lemma {:induction false} ExecKeepsLog(st: State, steps: seq<Step>)
    ensures st.processed <= Exec(st, steps).processed
    decreases steps
  {
    if steps == [] {
    } else {
      ExecKeepsLog(Apply(st, steps[0]), steps[1..]);
    }
  }

  lemma {:induction false} StepsRepeatIff(init: Mark, st: State, w: nat, failed: bool, steps: seq<Step>)
    requires SerialInv(init, st, w, failed) && SerialRun(st, steps)
    ensures Distinct(Exec(st, steps).processed) <==> NoWorkAfterFailure(st, steps, failed)
    decreases steps
  {
    if steps == [] {
    } else {
      var next := Apply(st, steps[0]);
      if failed && Works(st, steps[0]) {
        ProcessAfterFailure(init, st, w);
        ExecKeepsLog(next, steps[1..]);
      } else {
        var active := StepKeepsSerial(init, st, w, failed, steps[0]);
        StepsRepeatIff(init, next, active, failed || FailsMidway(st, steps[0]), steps[1..]);
      }
    }
  }

  lemma StartIsInOrder(init: Mark)
    ensures InOrderInv(init, Start(init)) && forall w :: SerialInv(init, Start(init), w, false)
  {
  }

  /**
   * Exactly when retried attempts process nothing twice: in every run whose attempts do not overlap, whichever workers
   * make them and whenever signals arrive in order, a signal is repeated if and only if some signal is processed after
   * an attempt failed having processed one.
   */
  lemma SerialRunRepeatsIff(init: Mark, steps: seq<Step>)
    requires SerialRun(Start(init), steps)
    ensures Distinct(Exec(Start(init), steps).processed) <==> NoWorkAfterFailure(Start(init), steps, false)
  {
    StartIsInOrder(init);
    StepsRepeatIff(init, Start(init), 0, false, steps);
  }

  // ── Runs in which no attempt fails midway ──────────────────────────────────

  /** The log is the first part of the sorted signals after the initial mark, and the mark is its last. */
  ghost predicate ExactlyOnce(init: Mark, st: State) {
    && st.processed <= SignalsSince(init, st.rows)
    && st.mark == if st.processed == [] then init else MarkOf(st.processed[|st.processed| - 1])
  }

  lemma {:induction false} RunKeepsSerial(init: Mark, st: State, w: nat, steps: seq<Step>) returns (active: nat)
    requires SerialInv(init, st, w, false) && SerialRun(st, steps) && NoneFailsMidway(st, steps)
    ensures SerialInv(init, Exec(st, steps), active, false)
    decreases steps
  {
    if steps == [] {
      active := w;
    } else {
      active := StepKeepsSerial(init, st, w, false, steps[0]);
      active := RunKeepsSerial(init, Apply(st, steps[0]), active, steps[1..]);
    }
  }

  /** A log without repetitions and a mark nothing is ahead of agree. */
  lemma NothingAheadIsExact(init: Mark, st: State)
    requires InOrderInv(init, st) && Distinct(st.processed) && !Ahead(st)
    ensures ExactlyOnce(init, st)
  {
    DistinctIffPrefix(init, st);
    SignalsSinceOnSorted(init, st.rows);
    MarkIsLast(init, st, SignalsSince(init, st.rows));
  }

  lemma MarkIsLast(init: Mark, st: State, due: seq<Signal>)
    requires InOrderInv(init, st) && !Ahead(st) && StrictlyOrdered(due) && st.processed <= due
    ensures st.mark == if st.processed == [] then init else MarkOf(st.processed[|st.processed| - 1])
  {
    var log := st.processed;
    assert Complete(init, st, st.mark);
    if log != [] {
      var p := log[|log| - 1];
      assert p in log;
      var s :| s in st.rows && st.mark == MarkOf(s);
      assert s in log;
      var i :| 0 <= i < |log| && log[i] == s;
      assert log[i] == due[i] && p == due[|log| - 1];
    }
  }

  /**
   * In every such run in which no attempt fails midway, what is processed is at all times a prefix of the strictly
   * sorted due signals, and between attempts the mark is the last of it.
   */
  lemma SerialRunsProcessExactlyOnce(init: Mark, steps: seq<Step>)
    requires SerialRun(Start(init), steps) && NoneFailsMidway(Start(init), steps)
    ensures var st := Exec(Start(init), steps);
            && StrictlyOrdered(SignalsSince(init, st.rows))
            && st.processed <= SignalsSince(init, st.rows)
            && (AllIdle(st) ==> ExactlyOnce(init, st))
  {
    StartIsInOrder(init);
    var w := RunKeepsSerial(init, Start(init), 0, steps);
    var st := Exec(Start(init), steps);
    DistinctIffPrefix(init, st);
    SignalsSinceOnSorted(init, st.rows);
    if AllIdle(st) {
      NothingAheadIsExact(init, st);
    }
  }

  /** What is fetched next is the part of the due sequence the log does not have yet. */
  lemma FetchedIsTheRest(init: Mark, st: State)
    requires StrictlyOrdered(st.rows) && ExactlyOnce(init, st)
    ensures SignalsSince(st.mark, st.rows) == SignalsSince(init, st.rows)[|st.processed|..]
  {
    SignalsSinceOnSorted(init, st.rows);
    SignalsSinceOnSorted(st.mark, st.rows);
    if st.processed != [] {
      DueAfter(init, st.mark, st.rows, |st.processed|);
    }
  }

  /** The steps of an attempt after its fetch, with arrivals among them. */
  ghost predicate Working(steps: seq<Step>) {
    forall step <- steps :: step.Arrive? || step.Process? || step.Advance?
  }

  lemma {:induction false} IdleHandlesNothing(st: State, steps: seq<Step>)
    requires AllIdle(st) && Working(steps)
    ensures Exec(st, steps).processed == st.processed
    decreases steps
  {
    if steps == [] {
    } else {
      assert steps[0] in steps && forall step <- steps[1..] :: step in steps;
      IdleHandlesNothing(Apply(st, steps[0]), steps[1..]);
    }
  }

  /** An attempt that comes to its end has processed the rest of its batch, whatever arrived meanwhile. */
  lemma {:induction false} AttemptHandlesBatch(st: State, w: nat, steps: seq<Step>)
    requires ActiveOnly(st, w) && InBatch(st, w) && Working(steps) && WorkerAt(Exec(st, steps), w).Idle?
    ensures Exec(st, steps).processed == st.processed + WorkerAt(st, w).batch[WorkerAt(st, w).done..]
    decreases steps
  {
    assert steps != [];
    var step, next := steps[0], Apply(st, steps[0]);
    var batch, done := WorkerAt(st, w).batch, WorkerAt(st, w).done;
    assert step in steps && forall x <- steps[1..] :: x in steps;
    if step == Advance(w) && done == |batch| {
      assert AllIdle(next) && st.processed + batch[done..] == st.processed;
      IdleHandlesNothing(next, steps[1..]);
    } else {
      AttemptHandlesBatch(next, w, steps[1..]);
      if step == Process(w) && done < |batch| {
        ProcessThenFinish(st, w);
        assert batch[done..] == [batch[done]] + batch[done + 1..];
      }
    }
  }

  function Least(a: nat, b: nat): nat {
    if a <= b then a else b
  }

  /**
   * In such a run, an attempt that comes to its end has processed, of the sorted due signals visible at its fetch, the
   * next ones up to its limit, or all there were: whatever arrived before the fetch or after it.
   */
  lemma AttemptProcessesUpToLimit(init: Mark, before: seq<Step>, w: nat, limit: nat, during: seq<Step>)
    requires SerialRun(Start(init), before) && NoneFailsMidway(Start(init), before)
    requires WorkerAt(Exec(Start(init), before), w).Loaded? && Working(during)
    requires WorkerAt(Exec(Apply(Exec(Start(init), before), Fetch(w, limit)), during), w).Idle?
    ensures var st := Exec(Start(init), before);
            var due := SignalsSince(init, st.rows);
            && st.processed <= due
            && Exec(Apply(st, Fetch(w, limit)), during).processed == due[..Least(|due|, |st.processed| + limit)]
  {
    StartIsInOrder(init);
    var active := RunKeepsSerial(init, Start(init), 0, before);
    assert active == w;
    LoadedProcessesUpToLimit(init, Exec(Start(init), before), w, limit, during);
  }

  lemma LoadedProcessesUpToLimit(init: Mark, st: State, w: nat, limit: nat, during: seq<Step>)
    requires SerialInv(init, st, w, false) && WorkerAt(st, w).Loaded? && Working(during)
    requires WorkerAt(Exec(Apply(st, Fetch(w, limit)), during), w).Idle?
    ensures var due := SignalsSince(init, st.rows);
            && st.processed <= due
            && Exec(Apply(st, Fetch(w, limit)), during).processed == due[..Least(|due|, |st.processed| + limit)]
  {
    NothingAheadIsExact(init, st);
    FetchedIsTheRest(init, st);
    var due, n := SignalsSince(init, st.rows), |st.processed|;
    FetchedIsHandled(st, w, limit, during, due[n..]);
    NextPart(due, st.processed, limit);
  }

  lemma NextPart(due: seq<Signal>, log: seq<Signal>, limit: nat)
    requires log <= due
    ensures var rest := due[|log|..];
            log + rest[..Least(limit, |rest|)] == due[..Least(|due|, |log| + limit)]
  {
  }

  /** An attempt that fetches and comes to its end has processed the first signals after the mark, up to its limit. */
  lemma FetchedIsHandled(st: State, w: nat, limit: nat, during: seq<Step>, rest: seq<Signal>)
    requires ActiveOnly(st, w) && WorkerAt(st, w) == Loaded(st.mark) && Working(during)
    requires rest == SignalsSince(st.mark, st.rows)
    requires WorkerAt(Exec(Apply(st, Fetch(w, limit)), during), w).Idle?
    ensures Exec(Apply(st, Fetch(w, limit)), during).processed == st.processed + rest[..Least(limit, |rest|)]
  {
    var fetched := Apply(st, Fetch(w, limit));
    var part := rest[..Least(limit, |rest|)];
    FetchOutcome(st, w, limit);
    if WorkerAt(fetched, w).Idle? {
      SignalsSinceIsTheQuery(st.mark, st.rows);
      assert rest != [] ==> rest[0] in rest;
      IdleHandlesNothing(fetched, during);
      assert st.processed + part == st.processed;
    } else {
      assert WorkerAt(fetched, w).batch == part;
      AttemptHandlesBatch(fetched, w, during);
      assert part[0..] == part;
    }
  }

  /** A limit that covers the backlog completes the log to exactly the sorted signals visible at the fetch. */
  lemma AttemptCatchesUp(init: Mark, before: seq<Step>, w: nat, limit: nat, during: seq<Step>)
    requires SerialRun(Start(init), before) && NoneFailsMidway(Start(init), before)
    requires WorkerAt(Exec(Start(init), before), w).Loaded? && Working(during)
    requires WorkerAt(Exec(Apply(Exec(Start(init), before), Fetch(w, limit)), during), w).Idle?
    ensures var st := Exec(Start(init), before);
            var due := SignalsSince(init, st.rows);
            Exec(Apply(st, Fetch(w, limit)), during).processed == due <==> limit >= |due| - |st.processed|
  {
    AttemptProcessesUpToLimit(init, before, w, limit, during);
  }

  // ── Runs that skip or repeat ───────────────────────────────────────────────

  lemma OneIsFetched(m: Mark, s: Signal)
    requires Since(m, s)
    ensures SignalsSince(m, [s]) == [s]
  {
    SignalsSinceOnSorted(m, [s]);
    SelectAll(m, [s]);
  }

  /** Loading the mark and fetching, as one worker's first two steps of an attempt. */
  function Fetched(st: State, w: nat): State {
    Apply(Apply(st, Load(w, st.mark)), Fetch(w, 1))
  }

  lemma SerialFirst(st: State, step: Step, rest: seq<Step>)
    requires SerialStep(st, step)
    ensures SerialRun(st, [step] + rest) <==> SerialRun(Apply(st, step), rest)
  {
    assert ([step] + rest)[1..] == rest;
  }

  /** An attempt of an idle worker over the one visible signal, up to its fetch. */
  lemma FetchOne(st: State, w: nat, s: Signal, rest: seq<Step>)
    requires AllIdle(st) && st.mark in st.past && st.rows == [s] && Since(st.mark, s)
    ensures var steps := [Load(w, st.mark)] + ([Fetch(w, 1)] + rest);
            && Fetched(st, w) == Move(Move(st, w, Loaded(st.mark)), w, Running([s], 0))
            && Exec(st, steps) == Exec(Fetched(st, w), rest)
            && (SerialRun(st, steps) <==> SerialRun(Fetched(st, w), rest))
  {
    OneIsFetched(st.mark, s);
    var loaded := Apply(st, Load(w, st.mark));
    ExecFirst(st, Load(w, st.mark), [Fetch(w, 1)] + rest);
    ExecFirst(loaded, Fetch(w, 1), rest);
    assert WorkerAt(st, w).Idle?;
    SerialFirst(st, Load(w, st.mark), [Fetch(w, 1)] + rest);
    SerialFirst(loaded, Fetch(w, 1), rest);
  }

  /** A whole attempt of worker 0 over one signal, and what follows it. */
  function OneAttempt(m: Mark, rest: seq<Step>): seq<Step> {
    [Load(0, m)] + ([Fetch(0, 1)] + (Finish(0, 1) + rest))
  }

  /** A signal arrives and an attempt over it completes. */
  lemma AttemptOverOne(init: Mark, s: Signal, rest: seq<Step>) returns (st: State)
    requires Since(init, s)
    ensures Exec(Start(init), [Arrive(s)] + OneAttempt(init, rest)) == Exec(st, rest)
    ensures st.mark == MarkOf(s) && st.rows == [s] && st.processed == [s]
  {
    var arrived := Apply(Start(init), Arrive(s));
    assert arrived.rows == [s];
    ExecFirst(Start(init), Arrive(s), OneAttempt(init, rest));
    FetchOne(arrived, 0, s, Finish(0, 1) + rest);
    ExecConcat(Fetched(arrived, 0), Finish(0, 1), rest);
    FinishOutcome(Fetched(arrived, 0), 0);
    st := Finished(Fetched(arrived, 0), 0);
    ReadingsOfNullDiffer(init, s);
    assert [] + [s][0..] == [s];
  }

  lemma ArrivesTooLate(init: Mark, st: State, early: Signal, late: Signal)
    requires Since(init, early) && Precedes(early, late) && early.id != late.id
    requires st.mark == MarkOf(late) && st.rows == [late] && st.processed == [late]
    ensures var end := Exec(st, [Arrive(early)]);
            && early in end.rows && early !in end.processed
            && end.mark == MarkOf(late) && !Since(end.mark, early) && !Complete(init, end, end.mark)
  {
    ExecFirst(st, Arrive(early), []);
    assert [Arrive(early)] + [] == [Arrive(early)];
    assert early in Apply(st, Arrive(early)).rows;
  }

  /** A run in which the unconditional promise fails: a signal committed one tick late is never fetched. */
  lemma LateCommitIsSkipped(init: Mark, early: Signal, late: Signal)
    requires Since(init, early) && Precedes(early, late) && early.id != late.id
    ensures var end := Exec(Start(init), [Arrive(late)] + OneAttempt(init, [Arrive(early)]));
            && early in end.rows && early !in end.processed
            && end.mark == MarkOf(late) && !Since(end.mark, early) && !Complete(init, end, end.mark)
  {
    var st := AttemptOverOne(init, late, [Arrive(early)]);
    ArrivesTooLate(init, st, early, late);
  }

  /** A run without any overlap that repeats: an attempt fails after its one signal, and the retry handles it again. */
  lemma RetryRepeats(init: Mark, s: Signal)
    requires Since(init, s)
    ensures var retry := [Load(1, init)] + ([Fetch(1, 1)] + Finish(1, 1));
            var failed := [Load(0, init)] + ([Fetch(0, 1)] + ([Process(0)] + ([Crash(0)] + retry)));
            && SerialRun(Start(init), [Arrive(s)] + failed)
            && Exec(Start(init), [Arrive(s)] + failed).processed == [s, s]
  {
    var retry := [Load(1, init)] + ([Fetch(1, 1)] + Finish(1, 1));
    var rest := [Process(0)] + ([Crash(0)] + retry);
    var arrived := Apply(Start(init), Arrive(s));
    ExecFirst(Start(init), Arrive(s), [Load(0, init)] + ([Fetch(0, 1)] + rest));
    SerialFirst(Start(init), Arrive(s), [Load(0, init)] + ([Fetch(0, 1)] + rest));
    assert arrived.rows == [s];
    FetchOne(arrived, 0, s, rest);
    var processed := Apply(Fetched(arrived, 0), Process(0));
    FailAndRetry(processed, init, s);
    ExecFirst(Fetched(arrived, 0), Process(0), [Crash(0)] + retry);
    SerialFirst(Fetched(arrived, 0), Process(0), [Crash(0)] + retry);
  }

  lemma FailAndRetry(st: State, init: Mark, s: Signal)
    requires ActiveOnly(st, 0) && st.mark == init && init in st.past && Since(init, s)
    requires st.rows == [s] && st.processed == [s]
    ensures var steps := [Crash(0)] + ([Load(1, init)] + ([Fetch(1, 1)] + Finish(1, 1)));
            SerialRun(st, steps) && Exec(st, steps).processed == [s, s]
  {
    var idle := Apply(st, Crash(0));
    ExecFirst(st, Crash(0), [Load(1, init)] + ([Fetch(1, 1)] + Finish(1, 1)));
    SerialFirst(st, Crash(0), [Load(1, init)] + ([Fetch(1, 1)] + Finish(1, 1)));
    FetchOne(idle, 1, s, Finish(1, 1));
    FinishOutcome(Fetched(idle, 1), 1);
    FinishIsSerial(Fetched(idle, 1), 1, 1);
  }

  lemma {:induction false} FinishIsSerial(st: State, w: nat, left: nat)
    ensures SerialRun(st, Finish(w, left))
    decreases left
  {
    if left == 0 {
    } else {
      FinishIsSerial(Apply(st, Process(w)), w, left - 1);
      SerialFirst(st, Process(w), Finish(w, left - 1));
    }
  }

  /** A run whose attempts all complete that repeats: two workers load the same mark. */
  lemma OverlapRepeats(init: Mark, s: Signal)
    requires Since(init, s)
    ensures var both := [Arrive(s)] + ([Load(0, init)] + ([Load(1, init)] + ([Fetch(0, 1)] + [Fetch(1, 1)])));
            Exec(Exec(Exec(Start(init), both), Finish(0, 1)), Finish(1, 1)).processed == [s, s]
  {
    var a := Apply(Start(init), Arrive(s));
    var b := Apply(a, Load(0, init));
    var c := Apply(b, Load(1, init));
    var d := Apply(c, Fetch(0, 1));
    ExecFirst(Start(init), Arrive(s), [Load(0, init)] + ([Load(1, init)] + ([Fetch(0, 1)] + [Fetch(1, 1)])));
    ExecFirst(a, Load(0, init), [Load(1, init)] + ([Fetch(0, 1)] + [Fetch(1, 1)]));
    ExecFirst(b, Load(1, init), [Fetch(0, 1)] + [Fetch(1, 1)]);
    ExecFirst(c, Fetch(0, 1), [Fetch(1, 1)]);
    ExecFirst(d, Fetch(1, 1), []);
    assert c.rows == [s] && c.processed == [];
    OneIsFetched(init, s);
    OverlappingTicksRepeat(c, 0, 1, 1);
  }
}

/** Any number of workers ticking over one cursor row while signals keep arriving. */
module CursorProtocol {
  import opened SignalCursor

  /** Where a worker stands in a tick: between jobs, holding a loaded mark, or inside a batch. */
  datatype Worker =
    | Idle
    | Loaded(mark: Mark)
    | Running(batch: seq<Signal>, done: nat)

  /** `past` holds every value the row has had, so a load may return a stale one. */
  datatype State = State(
    mark: Mark,
    past: set<Mark>,
    rows: seq<Signal>,
    processed: seq<Signal>,
    workers: map<nat, Worker>)

  datatype Step =
    | Arrive(signal: Signal)
    | Load(worker: nat, mark: Mark)
    | Fetch(worker: nat, limit: nat)
    | Process(worker: nat)
    | Advance(worker: nat)
    | Crash(worker: nat)

  function WorkerAt(st: State, w: nat): Worker {
    if w in st.workers then st.workers[w] else Idle
  }

  function Move(st: State, w: nat, worker: Worker): State {
    st.(workers := st.workers[w := worker])
  }

  function Take(s: seq<Signal>, limit: nat): seq<Signal> {
    if limit <= |s| then s[..limit] else s
  }

  predicate Fresh(st: State, s: Signal) {
    forall r <- st.rows :: r.id != s.id
  }

  /** One atomic step; a step that is not enabled leaves the state alone. */
  function Apply(st: State, step: Step): State {
    match step
    case Arrive(s) =>
      if Fresh(st, s) then st.(rows := st.rows + [s]) else st
    case Load(w, m) =>
      if WorkerAt(st, w).Idle? && m in st.past then Move(st, w, Loaded(m)) else st
    case Fetch(w, limit) =>
      if !WorkerAt(st, w).Loaded? then st
      else
        var batch := Take(SignalsSince(WorkerAt(st, w).mark, st.rows), limit);
        Move(st, w, if batch == [] then Idle else Running(batch, 0))
    case Process(w) =>
      var worker := WorkerAt(st, w);
      if !(worker.Running? && worker.done < |worker.batch|) then st
      else Move(st, w, worker.(done := worker.done + 1)).(processed := st.processed + [worker.batch[worker.done]])
    case Advance(w) =>
      var worker := WorkerAt(st, w);
      if !(worker.Running? && worker.done == |worker.batch| > 0) then st
      else
        var m := Advanced(st.mark, worker.batch[|worker.batch| - 1]);
        Move(st, w, Idle).(mark := m, past := st.past + {m})
    case Crash(w) => Move(st, w, Idle)
  }

  function Exec(st: State, steps: seq<Step>): State
    decreases steps
  {
    if steps == [] then st else Exec(Apply(st, steps[0]), steps[1..])
  }

  function Start(init: Mark): State {
    State(init, {init}, [], [], map[])
  }

  // ── Safety ─────────────────────────────────────────────────────────────────

  /** Every visible signal after the initial mark and at or below `m` has been processed. */
  ghost predicate Complete(init: Mark, st: State, m: Mark) {
    forall s <- st.rows :: Since(init, s) && !Behind(m, s) ==> s in st.processed
  }

  ghost predicate WorkerOk(init: Mark, st: State, worker: Worker) {
    match worker
    case Idle => true
    case Loaded(m) => m in st.past
    case Running(batch, done) =>
      && 0 < |batch| && done <= |batch|
      && (forall s <- batch :: s in st.rows)
      && (forall i :: 0 <= i < done ==> batch[i] in st.processed)
      && (forall s <- st.rows :: Since(init, s) && !Precedes(batch[|batch| - 1], s) ==> s in st.processed || s in batch)
  }

  ghost predicate Inv(init: Mark, st: State) {
    && st.mark in st.past
    && (forall m <- st.past :: && AtMost(m, st.mark) && Complete(init, st, m)
                               && (m == init || exists s <- st.rows :: m == MarkOf(s)))
    && (forall s <- st.processed :: s in st.rows)
    && (forall w <- st.workers :: WorkerOk(init, st, st.workers[w]))
  }

  /** The arriving signal sorts after the stored mark and after every batch in flight. */
  predicate SafeArrival(init: Mark, st: State, s: Signal) {
    Since(init, s) ==>
      && Behind(st.mark, s)
      && forall w <- st.workers :: InFlightBelow(st.workers[w], s)
  }

  predicate InFlightBelow(worker: Worker, s: Signal) {
    worker.Running? && worker.batch != [] ==> Precedes(worker.batch[|worker.batch| - 1], s)
  }

  ghost predicate SafeArrivals(init: Mark, st: State, steps: seq<Step>)
    decreases steps
  {
    steps != [] ==>
      && (steps[0].Arrive? && Fresh(st, steps[0].signal) ==> SafeArrival(init, st, steps[0].signal))
      && SafeArrivals(init, Apply(st, steps[0]), steps[1..])
  }

  lemma ArriveKeepsInv(init: Mark, st: State, s: Signal)
    requires Inv(init, st) && Fresh(st, s) && SafeArrival(init, st, s)
    ensures Inv(init, Apply(st, Arrive(s)))
  {
    var after := Apply(st, Arrive(s));
    forall m | m in after.past ensures Complete(init, after, m) {
      assert AtMost(m, st.mark);
    }
    forall m | m in after.past && m != init ensures exists r <- after.rows :: m == MarkOf(r) {
      var r :| r in st.rows && m == MarkOf(r);
      assert r in after.rows;
    }
    forall w | w in after.workers ensures WorkerOk(init, after, after.workers[w]) {
      assert WorkerOk(init, st, st.workers[w]) && (Since(init, s) ==> InFlightBelow(st.workers[w], s));
    }
  }

  /** A fetched batch holds every visible signal between its mark and its own last signal. */
  lemma BatchIsClosed(m: Mark, rows: seq<Signal>, limit: nat, s: Signal)
    requires Take(SignalsSince(m, rows), limit) != []
    requires s in rows && Since(m, s)
    ensures var batch := Take(SignalsSince(m, rows), limit);
            Precedes(batch[|batch| - 1], s) || s in batch
  {
    SignalsSinceIsTheQuery(m, rows);
    var all, batch := SignalsSince(m, rows), Take(SignalsSince(m, rows), limit);
    var i :| 0 <= i < |all| && all[i] == s;
    if i >= |batch| {
      assert !Precedes(s, batch[|batch| - 1]);
      assert Precedes(batch[|batch| - 1], s) || s == batch[|batch| - 1];
    } else {
      assert s == batch[i];
    }
  }

  lemma FetchedBatchIsOk(init: Mark, st: State, m: Mark, limit: nat, batch: seq<Signal>)
    requires Complete(init, st, m) && (m == init || m.lastSignalId.Some?)
    requires batch == Take(SignalsSince(m, st.rows), limit) != []
    ensures WorkerOk(init, st, Running(batch, 0))
  {
    forall s | s in batch ensures s in st.rows {
      SignalsSinceIsTheQuery(m, st.rows);
      assert s in SignalsSince(m, st.rows);
    }
    forall s | s in st.rows && Since(init, s) && !Precedes(batch[|batch| - 1], s)
      ensures s in st.processed || s in batch
    {
      if Since(m, s) {
        BatchIsClosed(m, st.rows, limit, s);
      } else {
        ReadingsOfNullDiffer(m, s);
      }
    }
  }

  /** A fetch takes the first of the qualifying signals, as many as there are and no more than the limit. */
  lemma FetchOutcome(st: State, w: nat, limit: nat)
    requires WorkerAt(st, w).Loaded?
    ensures var all := SignalsSince(WorkerAt(st, w).mark, st.rows);
            var after := Apply(st, Fetch(w, limit));
            && (WorkerAt(after, w).Idle? <==>
                  limit == 0 || forall s <- st.rows :: !Since(WorkerAt(st, w).mark, s))
            && (!WorkerAt(after, w).Idle? ==>
                  && WorkerAt(after, w).Running? && WorkerAt(after, w).done == 0
                  && WorkerAt(after, w).batch <= all
                  && |WorkerAt(after, w).batch| == if limit < |all| then limit else |all|)
            && after.mark == st.mark && after.rows == st.rows && after.processed == st.processed
            && forall v :: v != w ==> WorkerAt(after, v) == WorkerAt(st, v)
  {
    SignalsSinceIsTheQuery(WorkerAt(st, w).mark, st.rows);
    var all := SignalsSince(WorkerAt(st, w).mark, st.rows);
    if all != [] { assert all[0] in all; }
  }

  lemma FetchKeepsInv(init: Mark, st: State, w: nat, limit: nat)
    requires Inv(init, st)
    ensures Inv(init, Apply(st, Fetch(w, limit)))
  {
    var after := Apply(st, Fetch(w, limit));
    if WorkerAt(st, w).Loaded? {
      var m := WorkerAt(st, w).mark;
      var batch := Take(SignalsSince(m, st.rows), limit);
      if batch != [] { FetchedBatchIsOk(init, st, m, limit, batch); }
      forall x | x in after.workers ensures WorkerOk(init, after, after.workers[x]) {
        if x != w {
          assert WorkerOk(init, st, st.workers[x]);
        } else {
          assert batch != [] ==> WorkerOk(init, st, after.workers[w]);
        }
      }
    }
  }

  lemma ProcessKeepsInv(init: Mark, st: State, w: nat)
    requires Inv(init, st)
    ensures Inv(init, Apply(st, Process(w)))
  {
    var after := Apply(st, Process(w));
    assert forall s <- st.processed :: s in after.processed;
    forall m | m in after.past ensures Complete(init, after, m) {
      assert Complete(init, st, m);
    }
    forall x | x in after.workers ensures WorkerOk(init, after, after.workers[x]) {
      if x in st.workers { assert WorkerOk(init, st, st.workers[x]); }
    }
  }

  lemma AdvanceKeepsInv(init: Mark, st: State, w: nat)
    requires Inv(init, st)
    ensures Inv(init, Apply(st, Advance(w)))
  {
    var after := Apply(st, Advance(w));
    var worker := WorkerAt(st, w);
    if worker.Running? && worker.done == |worker.batch| > 0 {
      assert WorkerOk(init, st, worker);
      var last := worker.batch[|worker.batch| - 1];
      forall m | m in after.past ensures Complete(init, after, m) {
        if m in st.past {
          assert Complete(init, st, m);
        } else {
          assert m == MarkOf(last);
          forall s | s in st.rows && Since(init, s) && !Behind(m, s) ensures s in st.processed {
            assert !Precedes(last, s);
          }
        }
      }
      forall x | x in after.workers ensures WorkerOk(init, after, after.workers[x]) {
        if x != w { assert WorkerOk(init, st, st.workers[x]); }
      }
    }
  }

  lemma StepKeepsInv(init: Mark, st: State, step: Step)
    requires Inv(init, st)
    requires step.Arrive? && Fresh(st, step.signal) ==> SafeArrival(init, st, step.signal)
    ensures Inv(init, Apply(st, step))
  {
    match step
    case Arrive(s) => if Fresh(st, s) { ArriveKeepsInv(init, st, s); }
    case Load(w, m) =>
      forall x | x in Apply(st, step).workers ensures WorkerOk(init, st, Apply(st, step).workers[x]) {}
    case Fetch(w, limit) => FetchKeepsInv(init, st, w, limit);
    case Process(w) => ProcessKeepsInv(init, st, w);
    case Advance(w) => AdvanceKeepsInv(init, st, w);
    case Crash(w) =>
  }

  /** For every interleaving with safe arrivals, nothing at or below the stored mark is ever left unprocessed. */
  lemma {:induction false} NothingIsSkipped(init: Mark, st: State, steps: seq<Step>)
    requires Inv(init, st) && SafeArrivals(init, st, steps)
    ensures Inv(init, Exec(st, steps))
    ensures Complete(init, Exec(st, steps), Exec(st, steps).mark)
    decreases steps
  {
    if steps == [] {
    } else {
      StepKeepsInv(init, st, steps[0]);
      NothingIsSkipped(init, Apply(st, steps[0]), steps[1..]);
    }
  }

  /** Signals become visible in increasing (ingested_at, id) order. */
  ghost predicate InOrderArrivals(st: State, steps: seq<Step>)
    decreases steps
  {
    steps != [] ==>
      && (steps[0].Arrive? ==> forall r <- st.rows :: Precedes(r, steps[0].signal))
      && InOrderArrivals(Apply(st, steps[0]), steps[1..])
  }

  lemma InOrderArrivalIsSafe(init: Mark, st: State, s: Signal)
    requires Inv(init, st) && forall r <- st.rows :: Precedes(r, s)
    ensures SafeArrival(init, st, s)
  {
    ReadingsOfNullDiffer(init, s);
    forall w | w in st.workers ensures InFlightBelow(st.workers[w], s) {
      assert WorkerOk(init, st, st.workers[w]);
    }
  }

  lemma {:induction false} InOrderIsSafe(init: Mark, st: State, steps: seq<Step>)
    requires Inv(init, st) && InOrderArrivals(st, steps)
    ensures SafeArrivals(init, st, steps)
    decreases steps
  {
    if steps == [] {
    } else {
      if steps[0].Arrive? { InOrderArrivalIsSafe(init, st, steps[0].signal); }
      StepKeepsInv(init, st, steps[0]);
      InOrderIsSafe(init, Apply(st, steps[0]), steps[1..]);
    }
  }

  /** The documented guarantee, with its assumption: in-order visibility rules out skipping. */
  lemma InOrderVisibilitySkipsNothing(init: Mark, steps: seq<Step>)
    requires InOrderArrivals(Start(init), steps)
    ensures Complete(init, Exec(Start(init), steps), Exec(Start(init), steps).mark)
  {
    InOrderIsSafe(init, Start(init), steps);
    NothingIsSkipped(init, Start(init), steps);
  }

  // ── Exactness ──────────────────────────────────────────────────────────────

  ghost predicate NoArrivals(steps: seq<Step>) {
    forall step <- steps :: !step.Arrive?
  }

  lemma {:induction false} NoArrivalsAreSafe(init: Mark, st: State, steps: seq<Step>)
    requires NoArrivals(steps)
    ensures SafeArrivals(init, st, steps)
    decreases steps
  {
    if steps == [] {
    } else {
      assert steps[0] in steps;
      assert forall x <- steps[1..] :: x in steps;
      NoArrivalsAreSafe(init, Apply(st, steps[0]), steps[1..]);
    }
  }

  /** The rest of one worker's tick. */
  function Finish(w: nat, left: nat): seq<Step> {
    if left == 0 then [Advance(w)] else [Process(w)] + Finish(w, left - 1)
  }

  lemma {:induction false} FinishHasNoArrivals(w: nat, left: nat)
    ensures NoArrivals(Finish(w, left))
  {
    if left == 0 {
    } else {
      FinishHasNoArrivals(w, left - 1);
    }
  }

  ghost predicate InBatch(st: State, w: nat) {
    var worker := WorkerAt(st, w);
    worker.Running? && worker.batch != [] && worker.done <= |worker.batch|
  }

  /** The state after a worker has finished its batch undisturbed. */
  function Finished(st: State, w: nat): State
    requires InBatch(st, w)
  {
    var batch := WorkerAt(st, w).batch;
    var m := Advanced(st.mark, batch[|batch| - 1]);
    State(m, st.past + {m}, st.rows, st.processed + batch[WorkerAt(st, w).done..], st.workers[w := Idle])
  }

  lemma ProcessThenFinish(st: State, w: nat)
    requires InBatch(st, w) && WorkerAt(st, w).done < |WorkerAt(st, w).batch|
    ensures InBatch(Apply(st, Process(w)), w) && Finished(Apply(st, Process(w)), w) == Finished(st, w)
  {
    var next, batch, done := Apply(st, Process(w)), WorkerAt(st, w).batch, WorkerAt(st, w).done;
    assert WorkerAt(next, w) == Running(batch, done + 1);
    assert batch[done..] == [batch[done]] + batch[done + 1..];
    assert st.processed + batch[done..] == st.processed + [batch[done]] + batch[done + 1..];
  }

  lemma ExecFirst(st: State, step: Step, rest: seq<Step>)
    ensures Exec(st, [step] + rest) == Exec(Apply(st, step), rest)
  {
    assert ([step] + rest)[1..] == rest;
  }

  lemma {:induction false} FinishOutcome(st: State, w: nat)
    requires InBatch(st, w)
    ensures Exec(st, Finish(w, |WorkerAt(st, w).batch| - WorkerAt(st, w).done)) == Finished(st, w)
    decreases |WorkerAt(st, w).batch| - WorkerAt(st, w).done
  {
    var left := |WorkerAt(st, w).batch| - WorkerAt(st, w).done;
    if left > 0 {
      ProcessThenFinish(st, w);
      ExecFirst(st, Process(w), Finish(w, left - 1));
      FinishOutcome(Apply(st, Process(w)), w);
    } else {
      ExecFirst(st, Advance(w), []);
      assert st.processed + WorkerAt(st, w).batch[WorkerAt(st, w).done..] == st.processed;
    }
  }

  /** An arrival is followed only by complete states, whatever the workers do next, if and only if it is safe. */
  lemma ArrivalIsSafeIff(init: Mark, st: State, s: Signal)
    requires Inv(init, st) && Fresh(st, s) && Since(init, s)
    ensures SafeArrival(init, st, s) <==>
            forall steps | NoArrivals(steps) ::
              var end := Exec(Apply(st, Arrive(s)), steps); Complete(init, end, end.mark)
  {
    var arrived := Apply(st, Arrive(s));
    if SafeArrival(init, st, s) {
      forall steps | NoArrivals(steps)
        ensures var end := Exec(arrived, steps); Complete(init, end, end.mark)
      {
        ArriveKeepsInv(init, st, s);
        NoArrivalsAreSafe(init, arrived, steps);
        NothingIsSkipped(init, arrived, steps);
      }
    } else {
      assert s in arrived.rows && s !in st.processed;
      if !Behind(st.mark, s) {
        assert NoArrivals([]) && Exec(arrived, []) == arrived;
        assert !Complete(init, arrived, arrived.mark);
      } else {
        var w :| w in st.workers && !InFlightBelow(st.workers[w], s);
        SlowWorkerSkips(init, st, s, w);
      }
    }
  }

  /** A batch already past the arriving signal buries it once its worker finishes. */
  lemma SlowWorkerSkips(init: Mark, st: State, s: Signal, w: nat)
    requires Inv(init, st) && Fresh(st, s) && Since(init, s)
    requires w in st.workers && !InFlightBelow(st.workers[w], s)
    ensures exists steps | NoArrivals(steps) ::
              var end := Exec(Apply(st, Arrive(s)), steps); !Complete(init, end, end.mark)
  {
    var arrived := Apply(st, Arrive(s));
    assert WorkerOk(init, st, st.workers[w]);
    var batch, done := st.workers[w].batch, st.workers[w].done;
    FinishOutcome(arrived, w);
    FinishHasNoArrivals(w, |batch| - done);
    var steps := Finish(w, |batch| - done);
    var end := Exec(arrived, steps);
    assert s !in end.processed by {
      assert s !in st.processed;
      assert forall x <- batch[done..] :: x in batch;
    }
    assert s in end.rows && !Behind(end.mark, s);
    assert !Complete(init, end, end.mark);
  }

  lemma {:induction false} ExecConcat(st: State, first: seq<Step>, second: seq<Step>)
    ensures Exec(st, first + second) == Exec(Exec(st, first), second)
    decreases first
  {
    if first == [] {
      assert first + second == second;
    } else {
      assert (first + second)[1..] == first[1..] + second;
      ExecConcat(Apply(st, first[0]), first[1..], second);
    }
  }

  /** Two overlapping ticks process their common batch twice: at-least-once is all the row alone gives. */
  lemma OverlappingTicksRepeat(st: State, w: nat, v: nat, limit: nat)
    requires w != v && st.mark in st.past
    requires Take(SignalsSince(st.mark, st.rows), limit) != []
    requires WorkerAt(st, w) == WorkerAt(st, v) == Loaded(st.mark)
    ensures var batch := Take(SignalsSince(st.mark, st.rows), limit);
            var both := Apply(Apply(st, Fetch(w, limit)), Fetch(v, limit));
            Exec(Exec(both, Finish(w, |batch|)), Finish(v, |batch|)).processed == st.processed + batch + batch
  {
    var batch := Take(SignalsSince(st.mark, st.rows), limit);
    var both := Apply(Apply(st, Fetch(w, limit)), Fetch(v, limit));
    FinishOutcome(both, w);
    FinishOutcome(Exec(both, Finish(w, |batch|)), v);
    assert batch[0..] == batch;
  }
}

/** The high-water mark of a signal consumer: what it fetches and how it advances. */
module SignalCursor {
  import opened Options

  datatype Signal = Signal(ingestedAt: int, id: Id)

  datatype Mark = Mark(lastIngestedAt: int, lastSignalId: Option<Id>)

  function MarkOf(s: Signal): Mark {
    Mark(s.ingestedAt, Some(s.id))
  }

  /** ORDER BY ingested_at, id. */
  predicate Precedes(a: Signal, b: Signal) {
    a.ingestedAt < b.ingestedAt || (a.ingestedAt == b.ingestedAt && a.id < b.id)
  }

  /** The WHERE of signals_since: with no last id, nothing at the mark's own timestamp qualifies. */
  predicate Since(m: Mark, s: Signal) {
    match m.lastSignalId
    case Some(id) => s.ingestedAt > m.lastIngestedAt || (s.ingestedAt == m.lastIngestedAt && s.id > id)
    case None => s.ingestedAt > m.lastIngestedAt
  }

  /** The WHERE of advance_to's UPDATE: with no last id, everything at the mark's timestamp is ahead. */
  predicate Behind(m: Mark, s: Signal) {
    || m.lastIngestedAt < s.ingestedAt
    || (m.lastIngestedAt == s.ingestedAt && (m.lastSignalId.None? || m.lastSignalId.value < s.id))
  }

  /** The order on marks: lexicographic, a missing id below every id. */
  predicate AtMost(m: Mark, n: Mark) {
    || m.lastIngestedAt < n.lastIngestedAt
    || (m.lastIngestedAt == n.lastIngestedAt
        && (m.lastSignalId.None? || (n.lastSignalId.Some? && m.lastSignalId.value <= n.lastSignalId.value)))
  }

  /** The two readings of NULL differ exactly on a signal at the timestamp of an id-less mark. */
  lemma ReadingsOfNullDiffer(m: Mark, s: Signal)
    ensures Since(m, s) ==> Behind(m, s)
    ensures Behind(m, s) && !Since(m, s) <==> m.lastSignalId.None? && s.ingestedAt == m.lastIngestedAt
  {
  }

  // ── signals_since ──────────────────────────────────────────────────────────

  function Select(m: Mark, rows: seq<Signal>): seq<Signal> {
    if rows == [] then []
    else (if Since(m, rows[0]) then [rows[0]] else []) + Select(m, rows[1..])
  }

  function Insert(s: Signal, sorted: seq<Signal>): seq<Signal> {
    if sorted == [] || !Precedes(sorted[0], s) then [s] + sorted
    else [sorted[0]] + Insert(s, sorted[1..])
  }

  function OrderByKey(rows: seq<Signal>): seq<Signal> {
    if rows == [] then [] else Insert(rows[0], OrderByKey(rows[1..]))
  }

  function SignalsSince(m: Mark, rows: seq<Signal>): seq<Signal> {
    OrderByKey(Select(m, rows))
  }

  ghost predicate Ordered(s: seq<Signal>) {
    forall i, j :: 0 <= i < j < |s| ==> !Precedes(s[j], s[i])
  }

  ghost predicate StrictlyOrdered(s: seq<Signal>) {
    forall i, j :: 0 <= i < j < |s| ==> Precedes(s[i], s[j])
  }

  lemma {:induction false} InsertAdds(s: Signal, sorted: seq<Signal>)
    ensures multiset(Insert(s, sorted)) == multiset{s} + multiset(sorted)
  {
    if sorted == [] || !Precedes(sorted[0], s) {
    } else {
      InsertAdds(s, sorted[1..]);
      assert sorted == [sorted[0]] + sorted[1..];
    }
  }

  lemma {:induction false} InsertIsOrdered(s: Signal, sorted: seq<Signal>)
    requires Ordered(sorted)
    ensures Ordered(Insert(s, sorted))
  {
    if sorted == [] || !Precedes(sorted[0], s) {
    } else {
      InsertIsOrdered(s, sorted[1..]);
      InsertAdds(s, sorted[1..]);
      var rest := Insert(s, sorted[1..]);
      forall k | 0 <= k < |rest| ensures !Precedes(rest[k], sorted[0]) {
        assert rest[k] in multiset(rest);
        assert rest[k] == s || rest[k] in sorted[1..];
      }
    }
  }

  lemma {:induction false} OrderByKeySorts(rows: seq<Signal>)
    ensures Ordered(OrderByKey(rows))
    ensures multiset(OrderByKey(rows)) == multiset(rows)
  {
    if rows == [] {
    } else {
      OrderByKeySorts(rows[1..]);
      InsertIsOrdered(rows[0], OrderByKey(rows[1..]));
      InsertAdds(rows[0], OrderByKey(rows[1..]));
      assert rows == [rows[0]] + rows[1..];
    }
  }

  lemma {:induction false} SelectCounts(m: Mark, rows: seq<Signal>, s: Signal)
    ensures multiset(Select(m, rows))[s] == if Since(m, s) then multiset(rows)[s] else 0
  {
    if rows == [] {
    } else {
      SelectCounts(m, rows[1..], s);
      assert rows == [rows[0]] + rows[1..];
    }
  }

  /** signals_since is the sorted rearrangement of exactly the rows after the mark. */
  lemma SignalsSinceIsTheQuery(m: Mark, rows: seq<Signal>)
    ensures Ordered(SignalsSince(m, rows))
    ensures forall s :: multiset(SignalsSince(m, rows))[s] == if Since(m, s) then multiset(rows)[s] else 0
    ensures forall s :: s in SignalsSince(m, rows) <==> s in rows && Since(m, s)
  {
    OrderByKeySorts(Select(m, rows));
    forall s ensures multiset(SignalsSince(m, rows))[s] == if Since(m, s) then multiset(rows)[s] else 0 {
      SelectCounts(m, rows, s);
    }
    forall s ensures s in SignalsSince(m, rows) <==> s in rows && Since(m, s) {
      assert s in SignalsSince(m, rows) <==> s in multiset(SignalsSince(m, rows));
      assert s in rows <==> s in multiset(rows);
    }
  }

  // ── advance_to ─────────────────────────────────────────────────────────────

  function Advanced(m: Mark, s: Signal): Mark {
    if Behind(m, s) then MarkOf(s) else m
  }

  /** The stored row of ingestion_cursors, shared by every worker. */
  class CursorRow {
    var mark: Mark

    constructor (mark: Mark)
      ensures this.mark == mark
    {
      this.mark := mark;
    }
  }

  /** One worker's loaded record; `copy` may be older than the row. */
  class IngestionCursor {
    const row: CursorRow
    var copy: Mark

    constructor Load(row: CursorRow)
      ensures this.row == row && copy == row.mark
    {
      this.row := row;
      copy := row.mark;
    }

    /** The guard reads the row, never the copy, so a stale copy changes nothing in the outcome. */
    method AdvanceTo(signal: Option<Signal>) returns (rowsUpdated: nat)
      modifies row, `copy
      ensures signal.None? ==> rowsUpdated == 0
      ensures signal.Some? ==> rowsUpdated == if Behind(old(row.mark), signal.value) then 1 else 0
      ensures row.mark == if signal.Some? then Advanced(old(row.mark), signal.value) else old(row.mark)
      ensures copy == if rowsUpdated > 0 then row.mark else old(copy)
      ensures AtMost(old(row.mark), row.mark)
    {
      rowsUpdated := 0;
      if signal.None? { return; }
      if Behind(row.mark, signal.value) {
        row.mark := MarkOf(signal.value);
        rowsUpdated := 1;
      }
      if rowsUpdated > 0 {
        copy := row.mark;
      }
    }
  }

  /** The row after a sequence of advance_to calls, in the order their UPDATEs take effect. */
  function AdvanceAll(m: Mark, attempts: seq<Signal>): Mark
    decreases attempts
  {
    if attempts == [] then m else AdvanceAll(Advanced(m, attempts[0]), attempts[1..])
  }

  ghost predicate IsMaximum(max: Mark, m: Mark, attempts: multiset<Signal>) {
    && AtMost(m, max)
    && (forall s <- attempts :: AtMost(MarkOf(s), max))
    && (max == m || exists s <- attempts :: max == MarkOf(s))
  }

  lemma {:induction false} AdvanceAllIsMaximum(m: Mark, attempts: seq<Signal>)
    ensures IsMaximum(AdvanceAll(m, attempts), m, multiset(attempts))
    decreases attempts
  {
    if attempts == [] {
    } else {
      var next := Advanced(m, attempts[0]);
      AdvanceAllIsMaximum(next, attempts[1..]);
      assert multiset(attempts) == multiset{attempts[0]} + multiset(attempts[1..]) by {
        assert attempts == [attempts[0]] + attempts[1..];
      }
    }
  }

  /** The stored mark after any calls is the maximum of where it started and all attempts, in any order. */
  lemma AdvancesCommute(m: Mark, attempts: seq<Signal>, reordered: seq<Signal>)
    requires multiset(attempts) == multiset(reordered)
    ensures AdvanceAll(m, attempts) == AdvanceAll(m, reordered)
  {
    AdvanceAllIsMaximum(m, attempts);
    AdvanceAllIsMaximum(m, reordered);
  }
}

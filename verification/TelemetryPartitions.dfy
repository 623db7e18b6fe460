/** Moving telemetry readings into daily range partitions and back. */
module TelemetryPartitions {
  import opened Options

  const MICROSECONDS_PER_DAY := 86_400_000_000
  const LOOKAHEAD_DAYS := 7
  const LOOKBACK_DAYS := 1

  /** A row; timestamps are UTC microseconds and dates are day numbers on the same axis. */
  datatype Reading = Reading(
    id: Id,
    assetId: Id,
    lat: real,
    lng: real,
    speed: Option<real>,
    heading: Option<real>,
    battery: Option<real>,
    occurredAt: int,
    createdAt: int)

  /** `occurred_at::date` */
  function DateOf(timestamp: int): int {
    timestamp / MICROSECONDS_PER_DAY
  }

  /** FOR VALUES FROM (from) TO (to): from midnight to midnight, the end excluded. */
  datatype Partition = Partition(from: int, to: int) {
    predicate Accepts(timestamp: int) {
      from * MICROSECONDS_PER_DAY <= timestamp < to * MICROSECONDS_PER_DAY
    }
  }

  function Min(a: int, b: int): int {
    if a <= b then a else b
  }

  function Max(a: int, b: int): int {
    if a >= b then a else b
  }

  function MinDate(rows: seq<Reading>): Option<int> {
    if rows == [] then None
    else
      match MinDate(rows[1..])
      case None => Some(DateOf(rows[0].occurredAt))
      case Some(d) => Some(Min(DateOf(rows[0].occurredAt), d))
  }

  function MaxDate(rows: seq<Reading>): Option<int> {
    if rows == [] then None
    else
      match MaxDate(rows[1..])
      case None => Some(DateOf(rows[0].occurredAt))
      case Some(d) => Some(Max(DateOf(rows[0].occurredAt), d))
  }

  function OrElse(date: Option<int>, today: int): int {
    match date
    case None => today
    case Some(d) => d
  }

  /** The first and last date to create a partition for. */
  function PartitionWindow(legacy: seq<Reading>, today: int): (int, int) {
    (Min(OrElse(MinDate(legacy), today), today - LOOKBACK_DAYS),
     Max(OrElse(MaxDate(legacy), today), today + LOOKAHEAD_DAYS))
  }

  lemma {:induction false} DatesAreBounded(rows: seq<Reading>)
    ensures rows != [] ==> MinDate(rows).Some? && MaxDate(rows).Some?
    ensures forall r <- rows :: MinDate(rows).value <= DateOf(r.occurredAt) <= MaxDate(rows).value
    ensures rows != [] ==> exists r <- rows :: DateOf(r.occurredAt) == MinDate(rows).value
    ensures rows != [] ==> exists r <- rows :: DateOf(r.occurredAt) == MaxDate(rows).value
  {
    if rows == [] {
    } else {
      DatesAreBounded(rows[1..]);
      assert forall r :: r in rows <==> r == rows[0] || r in rows[1..];
    }
  }

  /** The window is the smallest that holds every legacy date and today - 1 through today + 7. */
  lemma WindowIsTight(legacy: seq<Reading>, today: int, start: int, end: int)
    ensures var w := PartitionWindow(legacy, today);
            start <= w.0 && w.1 <= end <==>
            && start <= today - 1 && today + 7 <= end
            && forall r <- legacy :: start <= DateOf(r.occurredAt) <= end
  {
    DatesAreBounded(legacy);
  }

  /** One partition a day, each ending where the next begins. */
  ghost predicate Tiles(partitions: seq<Partition>, start: int, end: int) {
    && start <= end
    && |partitions| == end - start + 1
    && forall i :: 0 <= i < |partitions| ==> partitions[i] == Partition(start + i, start + i + 1)
  }

  /** Every timestamp in the window falls in exactly one partition: that of its date. */
  lemma ExactlyOnePartition(partitions: seq<Partition>, start: int, end: int, timestamp: int, i: nat)
    requires Tiles(partitions, start, end) && start <= DateOf(timestamp) <= end && i < |partitions|
    ensures partitions[i].Accepts(timestamp) <==> i == DateOf(timestamp) - start
    ensures partitions[i].Accepts(timestamp) <==>
            0 <= timestamp - (start + i) * (24 * 60 * 60 * 1_000_000) < 24 * 60 * 60 * 1_000_000
  {
    var d := DateOf(timestamp);
    assert d * MICROSECONDS_PER_DAY <= timestamp < (d + 1) * MICROSECONDS_PER_DAY;
  }

  method CreatePartitions(start: int, end: int) returns (partitions: seq<Partition>)
    requires start <= end
    ensures Tiles(partitions, start, end)
  {
    partitions := [];
    for date := start to end + 1
      invariant |partitions| == date - start
      invariant forall i :: 0 <= i < |partitions| ==> partitions[i] == Partition(start + i, start + i + 1)
    {
      partitions := partitions + [Partition(date, date + 1)];
    }
  }

  /** The row's partition, searched as the table routes an insert; none is an error. */
  method Route(partitions: seq<Partition>, timestamp: int) returns (index: Option<nat>)
    ensures index.None? <==> forall i :: 0 <= i < |partitions| ==> !partitions[i].Accepts(timestamp)
    ensures index.Some? ==> index.value < |partitions| && partitions[index.value].Accepts(timestamp)
  {
    for i := 0 to |partitions|
      invariant forall j :: 0 <= j < i ==> !partitions[j].Accepts(timestamp)
    {
      if partitions[i].Accepts(timestamp) { return Some(i); }
    }
    return None;
  }

  /** A row and the index of the partition that stores it. */
  datatype Stored = Stored(partition: nat, row: Reading)

  function Rows(stored: seq<Stored>): seq<Reading> {
    seq(|stored|, i requires 0 <= i < |stored| => stored[i].row)
  }

  /** up: partitions for the window, then every legacy row copied into the partition of its date. */
  method Up(legacy: seq<Reading>, today: int) returns (partitions: seq<Partition>, stored: seq<Stored>)
    ensures Tiles(partitions, PartitionWindow(legacy, today).0, PartitionWindow(legacy, today).1)
    ensures forall s <- stored ::
              s.partition < |partitions| && partitions[s.partition].from == DateOf(s.row.occurredAt)
    ensures Rows(stored) == legacy
  {
    WindowIsTight(legacy, today, PartitionWindow(legacy, today).0, PartitionWindow(legacy, today).1);
    var (start, end) := PartitionWindow(legacy, today);
    partitions := CreatePartitions(start, end);
    stored := [];
    for k := 0 to |legacy|
      invariant |stored| == k && forall i :: 0 <= i < k ==> stored[i].row == legacy[i]
      invariant forall i :: 0 <= i < k ==>
                  && stored[i].partition < |partitions|
                  && partitions[stored[i].partition].from == DateOf(legacy[i].occurredAt)
    {
      var r := legacy[k];
      assert r in legacy;
      var home := DateOf(r.occurredAt) - start;
      ExactlyOnePartition(partitions, start, end, r.occurredAt, home);
      var index := Route(partitions, r.occurredAt);
      ExactlyOnePartition(partitions, start, end, r.occurredAt, index.value);
      stored := stored + [Stored(index.value, r)];
    }
  }

  ghost predicate DistinctIds(rows: seq<Reading>) {
    forall i, j :: 0 <= i < j < |rows| ==> rows[i].id != rows[j].id
  }

  /** down: back into a heap table, whose primary key the partitioned table did not have. */
  method Down(stored: seq<Stored>) returns (ok: bool, heap: seq<Reading>)
    ensures ok <==> DistinctIds(Rows(stored))
    ensures ok ==> heap == Rows(stored)
  {
    heap := [];
    var ids: set<Id> := {};
    for k := 0 to |stored|
      invariant |heap| == k && forall i :: 0 <= i < k ==> heap[i] == stored[i].row
      invariant forall id :: id in ids <==> exists i :: 0 <= i < k && stored[i].row.id == id
      invariant DistinctIds(heap)
    {
      var row := stored[k].row;
      if row.id in ids {
        var i :| 0 <= i < k && stored[i].row.id == row.id;
        assert Rows(stored)[i].id == Rows(stored)[k].id;
        return false, heap;
      }
      heap := heap + [row];
      ids := ids + {row.id};
    }
    assert heap == Rows(stored);
    return true, heap;
  }

  /** A row inserted after the migration under an id already there, which the partitioned table allows. */
  method RepeatedIdFails(row: Reading, today: int, again: Reading) returns (ok: bool)
    requires again.id == row.id && DateOf(again.occurredAt) == DateOf(row.occurredAt)
    ensures !ok
  {
    var partitions, stored := Up([row], today);
    assert Rows(stored)[0] == row;
    var inserted := stored + [Stored(stored[0].partition, again)];
    assert Rows(inserted)[0].id == Rows(inserted)[1].id;
    var heap;
    ok, heap := Down(inserted);
  }

  /** Rows that came from a table with a primary key survive the migration and its reversal unchanged. */
  method UpThenDown(legacy: seq<Reading>, today: int) returns (ok: bool, heap: seq<Reading>)
    ensures ok <==> DistinctIds(legacy)
    ensures ok ==> multiset(heap) == multiset(legacy)
  {
    var _, stored := Up(legacy, today);
    ok, heap := Down(stored);
  }
}

/** Hashing audit rows that predate the chain, in replay order, onto whatever chain already exists. */
module AuditBackfill {
  import opened Options
  import opened AuditChain
  import opened AuditLedger

  /** A row of one organization while the chain columns may still be NULL. */
  datatype Row = Chained(event: AuditEvent) | Unchained(columns: Columns)

  /** The position and prev_hash that follow the last of the given rows. */
  function Carried(h: Scheme, org: Option<Id>, before: seq<AuditEvent>): (int, Digest) {
    if before == [] then (1, h.genesis(org))
    else (before[|before| - 1].chainPosition + 1, before[|before| - 1].rowHash)
  }

  /** The first n rows as the walk leaves them: chained ones kept, each other one linked to the row before it. */
  function Walked(h: Scheme, org: Option<Id>, rows: seq<Row>, n: nat): (walked: seq<AuditEvent>)
    requires n <= |rows|
    ensures |walked| == n
  {
    if n == 0 then []
    else
      var before := Walked(h, org, rows, n - 1);
      before + [match rows[n - 1]
                case Chained(e) => e
                case Unchained(c) =>
                  var (position, prevHash) := Carried(h, org, before);
                  Rechained(h, org, position, prevHash, c)]
  }

  /** A position some chained or just-written row has, which the unique index refuses to give out again. */
  predicate Taken(position: int, rows: seq<Row>, before: seq<AuditEvent>) {
    || (exists r <- rows :: r.Chained? && r.event.chainPosition == position)
    || (exists e <- before :: e.chainPosition == position)
  }

  ghost predicate TakenAt(h: Scheme, org: Option<Id>, rows: seq<Row>, i: nat)
    requires i < |rows|
  {
    rows[i].Unchained? && Taken(Carried(h, org, Walked(h, org, rows, i)).0, rows, Walked(h, org, rows, i))
  }

  /** The unique index on the rows chained already. */
  ghost predicate ChainedDiffer(rows: seq<Row>) {
    forall i, j :: 0 <= i < j < |rows| && rows[i].Chained? && rows[j].Chained? ==>
      rows[i].event.chainPosition != rows[j].event.chainPosition
  }

  ghost predicate NoneTaken(h: Scheme, org: Option<Id>, rows: seq<Row>, n: nat)
    requires n <= |rows|
  {
    forall i :: 0 <= i < n ==> !TakenAt(h, org, rows, i)
  }

  lemma {:induction false} WalkedAt(h: Scheme, org: Option<Id>, rows: seq<Row>, n: nat, i: nat)
    requires i < n <= |rows|
    ensures Walked(h, org, rows, n)[..i + 1] == Walked(h, org, rows, i + 1)
    ensures Walked(h, org, rows, n)[i] == Walked(h, org, rows, i + 1)[i]
  {
    if i == n - 1 {
    } else {
      WalkedAt(h, org, rows, n - 1, i);
    }
  }

  /** What the walk makes of row i. */
  lemma WalkedRow(h: Scheme, org: Option<Id>, rows: seq<Row>, n: nat, i: nat)
    requires i < n <= |rows|
    ensures var w, before := Walked(h, org, rows, n), Walked(h, org, rows, i);
            && w[..i] == before
            && match rows[i]
               case Chained(e) => w[i] == e
               case Unchained(c) => w[i] == Rechained(h, org, Carried(h, org, before).0, Carried(h, org, before).1, c)
  {
    WalkedAt(h, org, rows, n, i);
    assert Walked(h, org, rows, n)[..i] == Walked(h, org, rows, n)[..i + 1][..i];
  }

  lemma WalkedGrows(h: Scheme, org: Option<Id>, rows: seq<Row>, i: nat)
    requires i < |rows|
    ensures var before := Walked(h, org, rows, i);
            var e := match rows[i]
                     case Chained(e) => e
                     case Unchained(c) =>
                       Rechained(h, org, Carried(h, org, before).0, Carried(h, org, before).1, c);
            && Walked(h, org, rows, i + 1) == before + [e]
            && Carried(h, org, before + [e]) == (e.chainPosition + 1, e.rowHash)
  {
  }

  lemma NextTaken(h: Scheme, org: Option<Id>, rows: seq<Row>, i: nat, next: int, before: seq<AuditEvent>)
    requires i < |rows| && before == Walked(h, org, rows, i) && next == Carried(h, org, before).0
    ensures TakenAt(h, org, rows, i) <==> rows[i].Unchained? && Taken(next, rows, before)
    ensures NoneTaken(h, org, rows, i + 1) <==> NoneTaken(h, org, rows, i) && !TakenAt(h, org, rows, i)
  {
  }

  lemma TakenMeansTwice(h: Scheme, org: Option<Id>, rows: seq<Row>, i: nat)
    requires i < |rows| && TakenAt(h, org, rows, i)
    ensures !PositionsDiffer(Walked(h, org, rows, |rows|))
  {
    var w := Walked(h, org, rows, |rows|);
    WalkedRow(h, org, rows, |rows|, i);
    var position := w[i].chainPosition;
    if r :| r in rows && r.Chained? && r.event.chainPosition == position {
      var j :| 0 <= j < |rows| && rows[j] == r;
      WalkedRow(h, org, rows, |rows|, j);
      assert j != i && w[j].chainPosition == position;
    } else {
      var e :| e in w[..i] && e.chainPosition == position;
      var j :| 0 <= j < i && w[j] == e;
    }
  }

  lemma NeverTakenMeansOnce(h: Scheme, org: Option<Id>, rows: seq<Row>)
    requires ChainedDiffer(rows) && NoneTaken(h, org, rows, |rows|)
    ensures PositionsDiffer(Walked(h, org, rows, |rows|))
  {
    var w := Walked(h, org, rows, |rows|);
    forall i, j | 0 <= i < j < |w| ensures w[i].chainPosition != w[j].chainPosition {
      WalkedRow(h, org, rows, |rows|, i);
      WalkedRow(h, org, rows, |rows|, j);
      assert !TakenAt(h, org, rows, i) && !TakenAt(h, org, rows, j);
      assert w[i] == w[..j][i] && w[i] in w[..j];
      if rows[j].Chained? { assert rows[j] in rows; }
    }
  }

  /**
   * Walks one chain's rows, skipping the chained ones and linking each other one to the row before it. It succeeds
   * exactly when no two rows end up at one position; otherwise the unique index raises and every update is undone.
   */
  method Backfill(h: Scheme, org: Option<Id>, rows: seq<Row>) returns (ok: bool, walked: seq<AuditEvent>)
    requires ChainedDiffer(rows)
    ensures ok <==> PositionsDiffer(Walked(h, org, rows, |rows|))
    ensures ok ==> walked == Walked(h, org, rows, |rows|)
  {
    var prevRowHash, nextPosition := h.genesis(org), 1;
    walked := [];
    for i := 0 to |rows|
      invariant walked == Walked(h, org, rows, i)
      invariant nextPosition == Carried(h, org, walked).0 && prevRowHash == Carried(h, org, walked).1
      invariant NoneTaken(h, org, rows, i)
    {
      WalkedGrows(h, org, rows, i);
      NextTaken(h, org, rows, i, nextPosition, walked);
      match rows[i]
      case Chained(event) =>
        prevRowHash := event.rowHash;
        nextPosition := event.chainPosition + 1;
        walked := walked + [event];
      case Unchained(columns) =>
        if Taken(nextPosition, rows, walked) {
          TakenMeansTwice(h, org, rows, i);
          return false, [];
        }
        var row := Rechained(h, org, nextPosition, prevRowHash, columns);
        prevRowHash := row.rowHash;
        nextPosition := nextPosition + 1;
        walked := walked + [row];
    }
    NeverTakenMeansOnce(h, org, rows);
    return true, walked;
  }

  // ── Backfilling onto a dense chain ─────────────────────────────────────────

  /** `chain` is the dense chain, in position order, of exactly the rows that are chained already. */
  ghost predicate Existing(h: Scheme, org: Option<Id>, rows: seq<Row>, chain: seq<AuditEvent>) {
    && Dense(h, org, chain)
    && (forall e :: e in chain <==> Chained(e) in rows)
    && ChainedDiffer(rows)
  }

  /** The chained row nearest before index i. */
  function LastChained(rows: seq<Row>, i: nat): Option<AuditEvent>
    requires i <= |rows|
  {
    if i == 0 then None
    else if rows[i - 1].Chained? then Some(rows[i - 1].event)
    else LastChained(rows, i - 1)
  }

  function Tip(chain: seq<AuditEvent>): Option<AuditEvent> {
    if chain == [] then None else Some(chain[|chain| - 1])
  }

  /** Every unchained row follows the tip, with no other chained row between. */
  predicate FollowTip(rows: seq<Row>, n: nat, chain: seq<AuditEvent>)
    requires n <= |rows|
  {
    forall i :: 0 <= i < n && rows[i].Unchained? ==> LastChained(rows, i) == Tip(chain)
  }

  /** The contents of the unchained rows, in replay order. */
  function Contents(rows: seq<Row>, n: nat): seq<Columns>
    requires n <= |rows|
  {
    if n == 0 then []
    else Contents(rows, n - 1) + (if rows[n - 1].Unchained? then [rows[n - 1].columns] else [])
  }

  /** The rows the walk has written, in replay order. */
  function Written(h: Scheme, org: Option<Id>, rows: seq<Row>, n: nat): seq<AuditEvent>
    requires n <= |rows|
  {
    if n == 0 then []
    else Written(h, org, rows, n - 1) + (if rows[n - 1].Unchained? then [Walked(h, org, rows, n)[n - 1]] else [])
  }

  /** The written rows carry the unchained rows' contents, in order, and recompute. */
  ghost predicate WrittenFor(h: Scheme, written: seq<AuditEvent>, contents: seq<Columns>) {
    && |written| == |contents|
    && forall i :: 0 <= i < |written| ==>
         written[i].content == contents[i] && written[i].hashVersion == 1 && h.Recomputes(written[i])
  }

  lemma LastChainedIsChained(rows: seq<Row>, i: nat)
    requires i <= |rows|
    ensures LastChained(rows, i).Some? ==> Chained(LastChained(rows, i).value) in rows
  {
    if i > 0 && rows[i - 1].Chained? {
      assert rows[i - 1] == Chained(rows[i - 1].event);
    }
  }

  ghost predicate Seen(rows: seq<Row>, i: nat, e: AuditEvent)
    requires i <= |rows|
  {
    exists j :: 0 <= j < i && rows[j] == Chained(e)
  }

  lemma {:induction false} TipWasSeen(rows: seq<Row>, i: nat, tip: AuditEvent)
    requires i <= |rows| && LastChained(rows, i) == Some(tip)
    ensures Seen(rows, i, tip)
  {
    if rows[i - 1].Chained? {
    } else {
      TipWasSeen(rows, i - 1, tip);
    }
  }

  lemma {:induction false} WalkedIsChainedOrWritten(h: Scheme, org: Option<Id>, rows: seq<Row>, n: nat, e: AuditEvent)
    requires n <= |rows|
    ensures e in Walked(h, org, rows, n) ==> Chained(e) in rows || e in Written(h, org, rows, n)
    ensures e in Written(h, org, rows, n) ==> e in Walked(h, org, rows, n)
  {
    if n == 0 {
    } else {
      WalkedIsChainedOrWritten(h, org, rows, n - 1, e);
      assert rows[n - 1].Chained? ==> rows[n - 1] == Chained(rows[n - 1].event);
    }
  }

  /** Which positions are taken: those of the chain, then those written after it. */
  lemma TakenPositions(h: Scheme, org: Option<Id>, rows: seq<Row>, i: nat, chain: seq<AuditEvent>, p: int)
    requires i <= |rows| && Existing(h, org, rows, chain) && Dense(h, org, chain + Written(h, org, rows, i))
    ensures Taken(p, rows, Walked(h, org, rows, i)) <==> 1 <= p <= |chain| + |Written(h, org, rows, i)|
  {
    var written := Written(h, org, rows, i);
    var all := chain + written;
    forall x | 0 <= x < |all| ensures all[x].chainPosition == x + 1 {
      assert DenseAt(h, org, all, x);
    }
    if 1 <= p <= |chain| {
      assert all[p - 1] in chain && Chained(all[p - 1]) in rows;
    } else if |chain| < p <= |all| {
      assert all[p - 1] == written[p - 1 - |chain|] && all[p - 1] in written;
      WalkedIsChainedOrWritten(h, org, rows, i, all[p - 1]);
    }
    if e :| (Chained(e) in rows || e in Walked(h, org, rows, i)) && e.chainPosition == p {
      WalkedIsChainedOrWritten(h, org, rows, i, e);
      assert e in chain || e in written;
      assert e in all;
      var x :| 0 <= x < |all| && all[x] == e;
    } else {
      NotTaken(rows, Walked(h, org, rows, i), p);
    }
  }

  lemma NotTaken(rows: seq<Row>, before: seq<AuditEvent>, p: int)
    requires forall e: AuditEvent | e.chainPosition == p :: Chained(e) !in rows && e !in before
    ensures !Taken(p, rows, before)
  {
    forall r | r in rows && r.Chained? ensures r.event.chainPosition != p {
      assert r == Chained(r.event);
    }
  }

  /** A row of the chain that is not its tip has a successor there, so its next position is taken. */
  lemma NextIsTakenUnlessTip(h: Scheme, org: Option<Id>, rows: seq<Row>, chain: seq<AuditEvent>, i: nat)
    requires Existing(h, org, rows, chain) && i <= |rows| && chain != []
    ensures var last := LastChained(rows, i);
            var next := if last.None? then 1 else last.value.chainPosition + 1;
            (1 <= next <= |chain| <==> last != Tip(chain)) && 1 <= next <= |chain| + 1
  {
    LastChainedIsChained(rows, i);
    var last := LastChained(rows, i);
    if last.Some? {
      assert last.value in chain;
      var k :| 0 <= k < |chain| && chain[k] == last.value;
      assert DenseAt(h, org, chain, k) && DenseAt(h, org, chain, |chain| - 1);
    }
  }

  /** What the walk knows after i rows: what it wrote is sound, and what it carries extends the chain after the tip. */
  ghost predicate Progress(h: Scheme, org: Option<Id>, rows: seq<Row>, i: nat, chain: seq<AuditEvent>,
                           written: seq<AuditEvent>, next: int, prev: Digest)
    requires i <= |rows|
  {
    var last, all := LastChained(rows, i), chain + written;
    && WrittenFor(h, written, Contents(rows, i)) && Dense(h, org, all)
    && (last == Tip(chain) ==> next == |all| + 1 && prev == Expected(h, org, all, |all|))
    && (last != Tip(chain) ==> next == if last.None? then 1 else last.value.chainPosition + 1)
    && (written != [] && chain != [] ==> Seen(rows, i, chain[|chain| - 1]))
  }

  lemma SkipChained(h: Scheme, org: Option<Id>, rows: seq<Row>, i: nat, chain: seq<AuditEvent>,
                    written: seq<AuditEvent>, next: int, prev: Digest)
    requires i < |rows| && rows[i].Chained? && Existing(h, org, rows, chain)
    requires Progress(h, org, rows, i, chain, written, next, prev)
    ensures Progress(h, org, rows, i + 1, chain, written, rows[i].event.chainPosition + 1, rows[i].event.rowHash)
  {
    assert Chained(rows[i].event) in rows;
    if Some(rows[i].event) == Tip(chain) {
      assert written == [] && chain + written == chain;
      assert DenseAt(h, org, chain, |chain| - 1);
    }
  }

  lemma AllExtends(h: Scheme, org: Option<Id>, chain: seq<AuditEvent>, written: seq<AuditEvent>, c: Columns)
    requires Dense(h, org, chain + written)
    ensures var all := chain + written;
            var row := Rechained(h, org, |all| + 1, Expected(h, org, all, |all|), c);
            var after := chain + (written + [row]);
            && Dense(h, org, after) && |after| == |all| + 1
            && Expected(h, org, after, |after|) == row.rowHash && h.Recomputes(row)
  {
    var all := chain + written;
    var row := Rechained(h, org, |all| + 1, Expected(h, org, all, |all|), c);
    var after := chain + (written + [row]);
    assert after == all + [row];
    forall i | 0 <= i < |after| ensures DenseAt(h, org, after, i) {
      if i < |all| { assert DenseAt(h, org, all, i); }
    }
  }

  lemma LinkUnchained(h: Scheme, org: Option<Id>, rows: seq<Row>, i: nat, chain: seq<AuditEvent>,
                      written: seq<AuditEvent>, next: int, prev: Digest)
    requires i < |rows| && rows[i].Unchained? && LastChained(rows, i) == Tip(chain)
    requires Progress(h, org, rows, i, chain, written, next, prev)
    ensures var row := Rechained(h, org, next, prev, rows[i].columns);
            Progress(h, org, rows, i + 1, chain, written + [row], next + 1, row.rowHash)
  {
    AllExtends(h, org, chain, written, rows[i].columns);
    assert LastChained(rows, i + 1) == LastChained(rows, i);
    if chain != [] {
      TipWasSeen(rows, i, chain[|chain| - 1]);
      var j :| 0 <= j < i && rows[j] == Chained(chain[|chain| - 1]);
    }
  }

  /** Progress, as the walk stands after i rows. */
  ghost predicate WalkProgress(h: Scheme, org: Option<Id>, rows: seq<Row>, i: nat, chain: seq<AuditEvent>)
    requires i <= |rows|
  {
    var carried := Carried(h, org, Walked(h, org, rows, i));
    Progress(h, org, rows, i, chain, Written(h, org, rows, i), carried.0, carried.1)
  }

  lemma WalkStart(h: Scheme, org: Option<Id>, rows: seq<Row>, chain: seq<AuditEvent>)
    requires Dense(h, org, chain)
    ensures WalkProgress(h, org, rows, 0, chain)
  {
    assert chain + [] == chain;
  }

  lemma WalkStep(h: Scheme, org: Option<Id>, rows: seq<Row>, i: nat, chain: seq<AuditEvent>)
    requires i < |rows| && Existing(h, org, rows, chain) && WalkProgress(h, org, rows, i, chain)
    requires rows[i].Unchained? ==> LastChained(rows, i) == Tip(chain)
    ensures WalkProgress(h, org, rows, i + 1, chain)
  {
    var (next, prev) := Carried(h, org, Walked(h, org, rows, i));
    var written := Written(h, org, rows, i);
    if rows[i].Chained? {
      SkipChained(h, org, rows, i, chain, written, next, prev);
      assert Written(h, org, rows, i + 1) == written;
    } else {
      LinkUnchained(h, org, rows, i, chain, written, next, prev);
    }
  }

  lemma {:induction false} WalkProgresses(h: Scheme, org: Option<Id>, rows: seq<Row>, i: nat, chain: seq<AuditEvent>)
    requires i <= |rows| && Existing(h, org, rows, chain) && FollowTip(rows, i, chain)
    ensures WalkProgress(h, org, rows, i, chain)
  {
    if i == 0 {
      WalkStart(h, org, rows, chain);
    } else {
      var n := i - 1;
      assert rows[n].Unchained? ==> LastChained(rows, n) == Tip(chain);
      WalkProgresses(h, org, rows, n, chain);
      WalkStep(h, org, rows, n, chain);
    }
  }

  lemma TakenUnlessTip(h: Scheme, org: Option<Id>, rows: seq<Row>, i: nat, chain: seq<AuditEvent>)
    requires i < |rows| && Existing(h, org, rows, chain) && FollowTip(rows, i, chain) && rows[i].Unchained?
    ensures TakenAt(h, org, rows, i) <==> LastChained(rows, i) != Tip(chain)
  {
    WalkProgresses(h, org, rows, i, chain);
    TakenPositions(h, org, rows, i, chain, Carried(h, org, Walked(h, org, rows, i)).0);
    LastChainedIsChained(rows, i);
    if chain != [] { NextIsTakenUnlessTip(h, org, rows, chain, i); }
  }

  lemma {:induction false} FirstStray(rows: seq<Row>, n: nat, chain: seq<AuditEvent>) returns (i: nat)
    requires n <= |rows| && !FollowTip(rows, n, chain)
    ensures i < n && FollowTip(rows, i, chain) && rows[i].Unchained? && LastChained(rows, i) != Tip(chain)
  {
    if FollowTip(rows, n - 1, chain) {
      i := n - 1;
    } else {
      i := FirstStray(rows, n - 1, chain);
    }
  }

  /**
   * Onto a dense chain the backfill succeeds if and only if every unchained row follows the tip in replay order; then
   * it extends the chain by those rows, in that order, and each of them recomputes.
   */
  lemma BackfillExtendsChainIff(h: Scheme, org: Option<Id>, rows: seq<Row>, chain: seq<AuditEvent>)
    requires Existing(h, org, rows, chain)
    ensures PositionsDiffer(Walked(h, org, rows, |rows|)) <==> FollowTip(rows, |rows|, chain)
    ensures FollowTip(rows, |rows|, chain) ==>
              && WrittenFor(h, Written(h, org, rows, |rows|), Contents(rows, |rows|))
              && Dense(h, org, chain + Written(h, org, rows, |rows|))
  {
    if FollowTip(rows, |rows|, chain) {
      WalkProgresses(h, org, rows, |rows|, chain);
      forall i | 0 <= i < |rows| ensures !TakenAt(h, org, rows, i) {
        if rows[i].Unchained? { TakenUnlessTip(h, org, rows, i, chain); }
      }
      NeverTakenMeansOnce(h, org, rows);
    } else {
      var i := FirstStray(rows, |rows|, chain);
      TakenUnlessTip(h, org, rows, i, chain);
      TakenMeansTwice(h, org, rows, i);
    }
  }

  /** The rows of each organization before a backfill, in replay order, and its dense chain among them. */
  datatype Before = Before(rows: Option<Id> -> seq<Row>, chains: Option<Id> -> seq<AuditEvent>)

  /** Every chain's backfill succeeded, and the table holds what the walks made of its rows, in whatever order. */
  ghost predicate Backfilled(h: Scheme, before: Before, table: seq<AuditEvent>) {
    && Indexed(table)
    && forall org: Option<Id> :: BackfilledOne(h, org, before.rows(org), before.chains(org), table)
  }

  ghost predicate BackfilledOne(
    h: Scheme, org: Option<Id>, rows: seq<Row>, chain: seq<AuditEvent>, table: seq<AuditEvent>)
  {
    && Existing(h, org, rows, chain) && PositionsDiffer(Walked(h, org, rows, |rows|))
    && forall e :: e in Walked(h, org, rows, |rows|) <==> e in table && e.organizationId == org
  }

  /** The backfilled chain is read as the old one followed by the rows written behind it. */
  lemma ReadBackfilled(h: Scheme, org: Option<Id>, rows: seq<Row>, chain: seq<AuditEvent>, table: seq<AuditEvent>)
    requires Indexed(table) && BackfilledOne(h, org, rows, chain, table)
    ensures ReadChain(table, org) == chain + Written(h, org, rows, |rows|)
    ensures Dense(h, org, ReadChain(table, org))
  {
    BackfillExtendsChainIff(h, org, rows, chain);
    var written, walked := Written(h, org, rows, |rows|), Walked(h, org, rows, |rows|);
    var all := chain + written;
    assert Dense(h, org, all);
    forall i | 0 <= i < |all| ensures all[i].chainPosition == i + 1 { assert DenseAt(h, org, all, i); }
    forall e ensures e in all <==> e in table && e.organizationId == org {
      WalkedIsChainedOrWritten(h, org, rows, |rows|, e);
      if Chained(e) in rows {
        var j :| 0 <= j < |rows| && rows[j] == Chained(e);
        WalkedRow(h, org, rows, |rows|, j);
        assert walked[j] in walked;
      }
      assert e in walked <==> Chained(e) in rows || e in written;
    }
    ReadChainIs(table, org, all);
  }

  /** Writers may start from a backfilled table: its chains are dense, and stay so. */
  lemma BackfilledChainsStayDense(h: Scheme, before: Before, table: seq<AuditEvent>, steps: seq<Step>)
    requires Backfilled(h, before, table)
    ensures AllDense(h, table) && Inv(h, Exec(h, From(table), steps))
    ensures table <= Exec(h, From(table), steps).rows
  {
    forall org ensures Dense(h, org, ReadChain(table, org)) {
      assert BackfilledOne(h, org, before.rows(org), before.chains(org), table);
      ReadBackfilled(h, org, before.rows(org), before.chains(org), table);
    }
    RacingWritersKeepChainsDense(h, From(table), steps);
  }

  /** A row that turns up before an already chained one in replay order makes the backfill fail. */
  method LateRowFails(h: Scheme, org: Option<Id>, late: Columns, first: Attributes) returns (ok: bool)
    ensures !ok
  {
    var e := Linked(h, org, 1, h.genesis(org), first);
    var rows := [Unchained(late), Chained(e)];
    assert DenseAt(h, org, [e], 0) && rows[1] == Chained(e);
    BackfillExtendsChainIff(h, org, rows, [e]);
    assert LastChained(rows, 0) == None != Tip([e]);
    assert rows[0].Unchained?;
    var walked;
    ok, walked := Backfill(h, org, rows);
  }
}

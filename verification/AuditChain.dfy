/** The hash chain over audit events: how a row is written and hashed, and how a chain is read and verified. */
module AuditChain {
  import opened Options
  import opened AuditValues

  type Digest = nat

  /** The columns of an audit event that are not part of the chain; S is what stands for a snapshot. */
  datatype Content<S> = Content(
    id: Id,
    schemaVersion: int,
    actor: string,
    entityType: string,
    entityId: Id,
    eventType: string,
    action: Option<string>,
    correlationId: Id,
    occurredAt: int,
    sequence: int,
    beforeSnapshot: S,
    afterSnapshot: S,
    metadata: S)

  /** An event as its caller passes it, and as the table stores it. */
  type Attributes = Content<Value>
  type Columns = Content<Option<Jsonb>>

  datatype AuditEvent = AuditEvent(
    hashVersion: int,
    organizationId: Option<Id>,
    chainPosition: int,
    prevHash: Digest,
    rowHash: Digest,
    content: Columns)

  /** What is encoded and hashed: every other column, after canonicalisation. */
  datatype Payload = Payload(
    hashVersion: int,
    organizationId: Option<Id>,
    chainPosition: int,
    prevHash: Digest,
    content: Attributes)

  /** `action.to_s`: a missing action is hashed as the empty string. */
  function ToS(action: Option<string>): Option<string> {
    Some(match action case None => "" case Some(a) => a)
  }

  /** The digest of an encoded payload, the prev_hash a chain's first row must carry, and the value encodings. */
  datatype Scheme = Scheme(digest: Payload -> Digest, genesis: Option<Id> -> Digest, codec: Codec) {
    function Canonical(a: Attributes): Attributes {
      a.(action := ToS(a.action),
         beforeSnapshot := codec.Canonical(a.beforeSnapshot),
         afterSnapshot := codec.Canonical(a.afterSnapshot),
         metadata := codec.Canonical(a.metadata))
    }

    function Stored(a: Attributes): Columns {
      Content(a.id, a.schemaVersion, a.actor, a.entityType, a.entityId, a.eventType, a.action, a.correlationId,
              a.occurredAt, a.sequence, codec.Store(a.beforeSnapshot), codec.Store(a.afterSnapshot),
              codec.Store(a.metadata))
    }

    function Read(c: Columns): Attributes {
      Content(c.id, c.schemaVersion, c.actor, c.entityType, c.entityId, c.eventType, c.action, c.correlationId,
              c.occurredAt, c.sequence, codec.Load(c.beforeSnapshot), codec.Load(c.afterSnapshot),
              codec.Load(c.metadata))
    }

    /** The payload of a stored row, from the values its columns read as. */
    function CanonicalPayload(e: AuditEvent): Payload {
      Payload(e.hashVersion, e.organizationId, e.chainPosition, e.prevHash, Canonical(Read(e.content)))
    }

    function Compute(e: AuditEvent): Digest {
      digest(CanonicalPayload(e))
    }

    predicate Recomputes(e: AuditEvent) {
      Compute(e) == e.rowHash
    }

    /** Every snapshot survives its column. */
    predicate Durable(a: Attributes) {
      codec.Durable(a.beforeSnapshot) && codec.Durable(a.afterSnapshot) && codec.Durable(a.metadata)
    }

    /** No two payloads share a digest. */
    ghost predicate CollisionFree() {
      forall p, q :: Distinguishes(p, q)
    }

    predicate Distinguishes(p: Payload, q: Payload) {
      digest(p) == digest(q) ==> p == q
    }

    lemma EqualDigests(a: AuditEvent, b: AuditEvent)
      requires CollisionFree()
      ensures Compute(a) == Compute(b) <==> CanonicalPayload(a) == CanonicalPayload(b)
    {
      assert Distinguishes(CanonicalPayload(a), CanonicalPayload(b));
    }
  }

  /** The row a writer builds: it hashes the values it was passed, and the columns keep their encodings. */
  function Linked(h: Scheme, org: Option<Id>, position: int, prevHash: Digest, a: Attributes): AuditEvent {
    AuditEvent(1, org, position, prevHash, h.digest(Payload(1, org, position, prevHash, h.Canonical(a))), h.Stored(a))
  }

  /** A stored row given its place in a chain: the hash covers what its columns read as. */
  function Rechained(h: Scheme, org: Option<Id>, position: int, prevHash: Digest, c: Columns): AuditEvent {
    var unhashed := AuditEvent(1, org, position, prevHash, 0, c);
    unhashed.(rowHash := h.Compute(unhashed))
  }

  /** A freshly written row recomputes exactly when no value in it is changed by its column. */
  lemma FreshRowRecomputesIff(h: Scheme, org: Option<Id>, position: int, prevHash: Digest, a: Attributes)
    requires h.CollisionFree() && h.codec.Lawful()
    ensures h.Recomputes(Linked(h, org, position, prevHash, a)) <==> h.Durable(a)
  {
    var e := Linked(h, org, position, prevHash, a);
    assert h.Distinguishes(h.CanonicalPayload(e), Payload(1, org, position, prevHash, h.Canonical(a)));
    h.codec.RoundTripIff(a.beforeSnapshot);
    h.codec.RoundTripIff(a.afterSnapshot);
    h.codec.RoundTripIff(a.metadata);
  }

  // ── Reading one chain ──────────────────────────────────────────────────────

  /** `where(organization_id: org)`: the rows of one chain, in table order. */
  function ChainOf(rows: seq<AuditEvent>, org: Option<Id>): seq<AuditEvent> {
    if rows == [] then []
    else
      var n := |rows| - 1;
      ChainOf(rows[..n], org) + (if rows[n].organizationId == org then [rows[n]] else [])
  }

  function InsertByPosition(e: AuditEvent, sorted: seq<AuditEvent>): seq<AuditEvent> {
    if sorted == [] || e.chainPosition <= sorted[0].chainPosition then [e] + sorted
    else [sorted[0]] + InsertByPosition(e, sorted[1..])
  }

  /** `order(chain_position: :asc)` */
  function OrderByPosition(rows: seq<AuditEvent>): seq<AuditEvent> {
    if rows == [] then []
    else InsertByPosition(rows[|rows| - 1], OrderByPosition(rows[..|rows| - 1]))
  }

  function ReadChain(table: seq<AuditEvent>, org: Option<Id>): seq<AuditEvent> {
    OrderByPosition(ChainOf(table, org))
  }

  predicate SamePlace(a: AuditEvent, b: AuditEvent) {
    a.organizationId == b.organizationId && a.chainPosition == b.chainPosition
  }

  /** What the unique indexes keep true: one row per position of each chain. */
  ghost predicate Indexed(table: seq<AuditEvent>) {
    forall i, j :: 0 <= i < j < |table| ==> !SamePlace(table[i], table[j])
  }

  ghost predicate Increasing(rows: seq<AuditEvent>) {
    forall i, j :: 0 <= i < j < |rows| ==> rows[i].chainPosition < rows[j].chainPosition
  }

  lemma {:induction false} ChainHasItsRows(rows: seq<AuditEvent>, org: Option<Id>)
    ensures forall r :: r in ChainOf(rows, org) <==> r in rows && r.organizationId == org
  {
    if rows == [] {
    } else {
      var n := |rows| - 1;
      ChainHasItsRows(rows[..n], org);
      assert forall r :: r in rows <==> r in rows[..n] || r == rows[n];
    }
  }

  lemma {:induction false} InsertKeepsIncreasing(e: AuditEvent, sorted: seq<AuditEvent>)
    requires Increasing(sorted) && forall r <- sorted :: r.chainPosition != e.chainPosition
    ensures Increasing(InsertByPosition(e, sorted))
    ensures forall r :: r in InsertByPosition(e, sorted) <==> r in sorted || r == e
  {
    if sorted == [] || e.chainPosition <= sorted[0].chainPosition {
    } else {
      InsertKeepsIncreasing(e, sorted[1..]);
      assert forall r :: r in sorted <==> r == sorted[0] || r in sorted[1..];
      var rest := InsertByPosition(e, sorted[1..]);
      forall k | 0 <= k < |rest| ensures sorted[0].chainPosition < rest[k].chainPosition {
        assert rest[k] in rest;
      }
    }
  }

  ghost predicate PositionsDiffer(rows: seq<AuditEvent>) {
    forall i, j :: 0 <= i < j < |rows| ==> rows[i].chainPosition != rows[j].chainPosition
  }

  lemma {:induction false} OrderIsIncreasing(rows: seq<AuditEvent>)
    requires PositionsDiffer(rows)
    ensures Increasing(OrderByPosition(rows))
    ensures forall r :: r in OrderByPosition(rows) <==> r in rows
  {
    if rows == [] {
    } else {
      var n := |rows| - 1;
      OrderIsIncreasing(rows[..n]);
      InsertKeepsIncreasing(rows[n], OrderByPosition(rows[..n]));
      assert forall r :: r in rows <==> r in rows[..n] || r == rows[n];
    }
  }

  lemma {:induction false} ChainPositionsDiffer(table: seq<AuditEvent>, org: Option<Id>)
    requires Indexed(table)
    ensures PositionsDiffer(ChainOf(table, org))
  {
    if table == [] {
    } else {
      var n := |table| - 1;
      ChainPositionsDiffer(table[..n], org);
      ChainHasItsRows(table[..n], org);
      var front := ChainOf(table[..n], org);
      if table[n].organizationId == org {
        forall i | 0 <= i < |front| ensures front[i].chainPosition != table[n].chainPosition {
          assert front[i] in front;
          var j :| 0 <= j < n && table[j] == front[i];
          assert !SamePlace(table[j], table[n]);
        }
      }
    }
  }

  lemma {:induction false} SameRowsSameOrder(s: seq<AuditEvent>, t: seq<AuditEvent>)
    requires Increasing(s) && Increasing(t) && forall r :: r in s <==> r in t
    ensures s == t
  {
    assert t != [] ==> t[0] in t;
    if s == [] {
    } else {
      assert s[0] in t;
      assert t[0] in s;
      assert s[0] == t[0];
      forall r ensures r in s[1..] <==> r in t[1..] {
        assert r in s <==> r == s[0] || r in s[1..];
        assert r in t <==> r == t[0] || r in t[1..];
      }
      SameRowsSameOrder(s[1..], t[1..]);
    }
  }

  /** What is read is the chain's rows by position, and nothing else is. */
  lemma ReadChainIs(table: seq<AuditEvent>, org: Option<Id>, rows: seq<AuditEvent>)
    requires Indexed(table)
    ensures ReadChain(table, org) == rows <==>
            Increasing(rows) && forall r :: r in rows <==> r in table && r.organizationId == org
  {
    var read := ReadChain(table, org);
    ChainPositionsDiffer(table, org);
    OrderIsIncreasing(ChainOf(table, org));
    ChainHasItsRows(table, org);
    if Increasing(rows) && forall r :: r in rows <==> r in table && r.organizationId == org {
      SameRowsSameOrder(read, rows);
    }
  }

  // ── Verification ───────────────────────────────────────────────────────────

  datatype Reason = PositionGap | NotGenesis | BrokenLink | Tampered

  datatype Evidence = PositionIs(n: int) | DigestIs(d: Digest)

  datatype Verification = Verification(
    organizationId: Option<Id>,
    rowsChecked: nat,
    valid: bool,
    brokenAt: Option<int>,
    reason: Option<Reason>,
    expected: Option<Evidence>,
    actual: Option<Evidence>)

  /** The digest row i must carry as its prev_hash. */
  function Expected(h: Scheme, org: Option<Id>, rows: seq<AuditEvent>, i: nat): Digest
    requires i <= |rows|
  {
    if i == 0 then h.genesis(org) else rows[i - 1].rowHash
  }

  function Fault(h: Scheme, org: Option<Id>, rows: seq<AuditEvent>, i: nat): Option<Reason>
    requires i < |rows|
  {
    if rows[i].chainPosition != i + 1 then Some(PositionGap)
    else if rows[i].prevHash != Expected(h, org, rows, i) then Some(if i == 0 then NotGenesis else BrokenLink)
    else if !h.Recomputes(rows[i]) then Some(Tampered)
    else None
  }

  /** Dense from 1 and linked back to genesis, all of one organization. */
  ghost predicate Dense(h: Scheme, org: Option<Id>, rows: seq<AuditEvent>) {
    forall i :: 0 <= i < |rows| ==> DenseAt(h, org, rows, i)
  }

  ghost predicate DenseAt(h: Scheme, org: Option<Id>, rows: seq<AuditEvent>, i: nat)
    requires i < |rows|
  {
    && rows[i].chainPosition == i + 1
    && rows[i].prevHash == Expected(h, org, rows, i)
    && rows[i].organizationId == org
  }

  /** Dense, and every hash recomputable. */
  ghost predicate Sound(h: Scheme, org: Option<Id>, rows: seq<AuditEvent>) {
    forall i :: 0 <= i < |rows| ==> SoundAt(h, org, rows, i)
  }

  ghost predicate SoundAt(h: Scheme, org: Option<Id>, rows: seq<AuditEvent>, i: nat)
    requires i < |rows|
  {
    DenseAt(h, org, rows, i) && h.Recomputes(rows[i])
  }

  ghost predicate Intact(h: Scheme, org: Option<Id>, rows: seq<AuditEvent>) {
    forall i :: 0 <= i < |rows| ==> Fault(h, org, rows, i) == None
  }

  ghost predicate BreaksFirstAt(h: Scheme, org: Option<Id>, rows: seq<AuditEvent>, k: nat) {
    && k < |rows|
    && Fault(h, org, rows, k) != None
    && forall i :: 0 <= i < k ==> Fault(h, org, rows, i) == None
  }

  /** What a report says of the break at row k. */
  function Broken(h: Scheme, org: Option<Id>, rows: seq<AuditEvent>, k: nat): Verification
    requires k < |rows|
  {
    var (expected, actual) :=
      match Fault(h, org, rows, k)
      case Some(PositionGap) => (PositionIs(k + 1), PositionIs(rows[k].chainPosition))
      case Some(Tampered) => (DigestIs(h.Compute(rows[k])), DigestIs(rows[k].rowHash))
      case _ => (DigestIs(Expected(h, org, rows, k)), DigestIs(rows[k].prevHash));
    Verification(org, k + 1, false, Some(rows[k].chainPosition), Fault(h, org, rows, k), Some(expected), Some(actual))
  }

  /** The report tells an intact chain from a broken one, and names the first break. */
  ghost predicate Reports(h: Scheme, org: Option<Id>, rows: seq<AuditEvent>, v: Verification) {
    && (v.valid <==> Intact(h, org, rows))
    && (v.valid ==> v == Verification(org, |rows|, true, None, None, None, None))
    && (!v.valid ==> exists k :: BreaksFirstAt(h, org, rows, k) && v == Broken(h, org, rows, k))
  }

  /** What stands in the report of a break, reason by reason. */
  ghost predicate Evident(h: Scheme, org: Option<Id>, rows: seq<AuditEvent>, v: Verification)
    requires 0 < v.rowsChecked <= |rows|
  {
    var i := v.rowsChecked - 1;
    && v.organizationId == org && v.brokenAt == Some(rows[i].chainPosition)
    && match v.reason
       case Some(PositionGap) =>
         v.expected == Some(PositionIs(v.rowsChecked)) && v.actual == Some(PositionIs(rows[i].chainPosition))
       case Some(NotGenesis) =>
         i == 0 && v.expected == Some(DigestIs(h.genesis(org))) && v.actual == Some(DigestIs(rows[0].prevHash))
       case Some(BrokenLink) =>
         i > 0 && v.expected == Some(DigestIs(rows[i - 1].rowHash)) && v.actual == Some(DigestIs(rows[i].prevHash))
       case Some(Tampered) =>
         v.expected == Some(DigestIs(h.Compute(rows[i]))) && v.actual == Some(DigestIs(rows[i].rowHash))
       case None => false
  }

  /** Reads one chain of the table in chain_position order, walks it and reports the first break. */
  method VerifyOrganization(h: Scheme, org: Option<Id>, table: seq<AuditEvent>) returns (v: Verification)
    ensures Reports(h, org, ReadChain(table, org), v)
    ensures !v.valid ==>
              0 < v.rowsChecked <= |ReadChain(table, org)| && Evident(h, org, ReadChain(table, org), v)
  {
    var rows := ReadChain(table, org);
    if rows == [] {
      return Verification(org, 0, true, None, None, None, None);
    }
    var prevRowHash := h.genesis(org);
    for i := 0 to |rows|
      invariant prevRowHash == Expected(h, org, rows, i)
      invariant forall j :: 0 <= j < i ==> Fault(h, org, rows, j) == None
    {
      var row := rows[i];
      if row.chainPosition != i + 1 {
        v := Verification(org, i + 1, false, Some(row.chainPosition), Some(PositionGap),
                          Some(PositionIs(i + 1)), Some(PositionIs(row.chainPosition)));
        assert BreaksFirstAt(h, org, rows, i) && v == Broken(h, org, rows, i);
        return;
      }
      if row.prevHash != prevRowHash {
        v := Verification(org, i + 1, false, Some(row.chainPosition), Some(if i == 0 then NotGenesis else BrokenLink),
                          Some(DigestIs(prevRowHash)), Some(DigestIs(row.prevHash)));
        assert BreaksFirstAt(h, org, rows, i) && v == Broken(h, org, rows, i);
        return;
      }
      var recomputed := h.Compute(row);
      if recomputed != row.rowHash {
        v := Verification(org, i + 1, false, Some(row.chainPosition), Some(Tampered),
                          Some(DigestIs(recomputed)), Some(DigestIs(row.rowHash)));
        assert BreaksFirstAt(h, org, rows, i) && v == Broken(h, org, rows, i);
        return;
      }
      prevRowHash := row.rowHash;
    }
    return Verification(org, |rows|, true, None, None, None, None);
  }
}

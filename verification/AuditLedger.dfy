/** The audit_events table under racing writers: unique indexes, immutability triggers, chain tips. */
module AuditLedger {
  import opened Options
  import opened JsonValues
  import opened AuditValues
  import opened AuditChain

  // ── The two partial unique indexes ─────────────────────────────────────────

  /** A unique index: the rows its WHERE covers, and the columns it compares, where NULLs are distinct. */
  datatype UniqueIndex = UniqueIndex(covers: AuditEvent -> bool, columns: AuditEvent -> seq<Option<int>>) {
    predicate Conflicts(a: AuditEvent, b: AuditEvent) {
      && covers(a) && covers(b)
      && columns(a) == columns(b)
      && forall c <- columns(a) :: c.Some?
    }
  }

  function OrganizationColumn(e: AuditEvent): Option<int> {
    match e.organizationId
    case None => None
    case Some(id) => Some(id)
  }

  const SCOPED := UniqueIndex(
    (e: AuditEvent) => e.organizationId.Some?,
    (e: AuditEvent) => [OrganizationColumn(e), Some(e.chainPosition)])

  const UNSCOPED := UniqueIndex(
    (e: AuditEvent) => e.organizationId.None?,
    (e: AuditEvent) => [Some(e.chainPosition)])

  /** A single composite index over all rows, the design the split avoids. */
  const COMPOSITE := UniqueIndex(
    (e: AuditEvent) => true,
    (e: AuditEvent) => [OrganizationColumn(e), Some(e.chainPosition)])

  predicate Collides(a: AuditEvent, b: AuditEvent) {
    SCOPED.Conflicts(a, b) || UNSCOPED.Conflicts(a, b)
  }

  /** The two indexes together admit one row per position of each chain, the nil-organization chain included. */
  lemma IndexesGuardEveryChain(a: AuditEvent, b: AuditEvent)
    ensures Collides(a, b) <==> SamePlace(a, b)
  {
    var c := Some(a.chainPosition);
    assert Some(b.chainPosition) == c <==> a.chainPosition == b.chainPosition;
    assert SCOPED.columns(a) == SCOPED.columns(b) <==>
           SCOPED.columns(a)[0] == SCOPED.columns(b)[0] && SCOPED.columns(a)[1] == SCOPED.columns(b)[1];
    assert UNSCOPED.columns(a) == UNSCOPED.columns(b) <==> UNSCOPED.columns(a)[0] == UNSCOPED.columns(b)[0];
  }

  /** The composite index would guard exactly the chains that have an organization. */
  lemma CompositeIndexMissesNilOrganization(a: AuditEvent, b: AuditEvent)
    ensures COMPOSITE.Conflicts(a, b) <==>
            a.organizationId.Some? && a.organizationId == b.organizationId && a.chainPosition == b.chainPosition
  {
    assert COMPOSITE.columns(a) == COMPOSITE.columns(b) <==>
           COMPOSITE.columns(a)[0] == COMPOSITE.columns(b)[0] && COMPOSITE.columns(a)[1] == COMPOSITE.columns(b)[1];
    assert COMPOSITE.columns(a)[0] in COMPOSITE.columns(a) && COMPOSITE.columns(a)[0] == OrganizationColumn(a);
  }

  predicate Admits(rows: seq<AuditEvent>, e: AuditEvent) {
    forall r <- rows :: !Collides(r, e)
  }

  /** The model's presence validations, on the values its attributes read as. */
  predicate ValidEvent(h: Scheme, e: AuditEvent) {
    && !BlankText(e.content.actor) && !BlankText(e.content.entityType) && !BlankText(e.content.eventType)
    && IsPresent(h.codec.Load(e.content.afterSnapshot))
  }

  predicate Accepts(h: Scheme, rows: seq<AuditEvent>, e: AuditEvent) {
    ValidEvent(h, e) && Admits(rows, e)
  }

  function Inserted(h: Scheme, rows: seq<AuditEvent>, e: AuditEvent): seq<AuditEvent> {
    if Accepts(h, rows, e) then rows + [e] else rows
  }

  // ── The triggers ───────────────────────────────────────────────────────────

  datatype Statement =
    | Update(where: AuditEvent -> bool, change: AuditEvent -> AuditEvent)
    | Delete(where: AuditEvent -> bool)

  /** The table a statement would leave behind without triggers. */
  function Effect(rows: seq<AuditEvent>, statement: Statement): seq<AuditEvent> {
    if rows == [] then []
    else
      var n := |rows| - 1;
      Effect(rows[..n], statement) +
      (if !statement.where(rows[n]) then [rows[n]] else if statement.Delete? then [] else [statement.change(rows[n])])
  }

  /** An update changes the rows it matches in their places, a delete leaves the others. */
  lemma {:induction false} EffectIs(rows: seq<AuditEvent>, statement: Statement)
    ensures statement.Update? ==>
              && |Effect(rows, statement)| == |rows|
              && forall i :: 0 <= i < |rows| ==>
                   Effect(rows, statement)[i] ==
                   if statement.where(rows[i]) then statement.change(rows[i]) else rows[i]
    ensures statement.Delete? ==>
              forall r :: r in Effect(rows, statement) <==> r in rows && !statement.where(r)
  {
    if rows == [] {
    } else {
      var n := |rows| - 1;
      EffectIs(rows[..n], statement);
      assert rows == rows[..n] + [rows[n]];
    }
  }

  /** BEFORE UPDATE and BEFORE DELETE, FOR EACH ROW, raise, which aborts the whole statement. */
  predicate Raises(rows: seq<AuditEvent>, statement: Statement) {
    exists r <- rows :: statement.where(r)
  }

  function Executed(rows: seq<AuditEvent>, statement: Statement): seq<AuditEvent> {
    if Raises(rows, statement) then rows else Effect(rows, statement)
  }

  /** A statement has an effect only on rows it matches, so with the triggers in place it has none. */
  lemma {:induction false} NothingIsMutated(rows: seq<AuditEvent>, statement: Statement)
    ensures !Raises(rows, statement) ==> Effect(rows, statement) == rows
    ensures Executed(rows, statement) == rows
  {
    if rows == [] {
    } else {
      var n := |rows| - 1;
      NothingIsMutated(rows[..n], statement);
      assert rows == rows[..n] + [rows[n]];
      if !Raises(rows, statement) {
        forall r | r in rows[..n] ensures !statement.where(r) { assert r in rows; }
        assert rows[n] in rows;
      }
    }
  }

  /** The table itself: INSERT runs into the validations and indexes, UPDATE and DELETE into the triggers. */
  class AuditTable {
    var rows: seq<AuditEvent>

    constructor ()
      ensures rows == []
    {
      rows := [];
    }

    method Insert(h: Scheme, e: AuditEvent) returns (accepted: bool)
      modifies this
      ensures accepted <==> ValidEvent(h, e) && Admits(old(rows), e)
      ensures rows == Inserted(h, old(rows), e)
    {
      accepted := ValidEvent(h, e);
      for i := 0 to |rows|
        invariant rows == old(rows)
        invariant accepted <==> ValidEvent(h, e) && Admits(rows[..i], e)
      {
        assert rows[..i + 1] == rows[..i] + [rows[i]];
        if Collides(rows[i], e) { accepted := false; }
      }
      assert rows[..|rows|] == rows;
      if accepted { rows := rows + [e]; }
    }

    /** Row by row: the trigger of the first row the statement would touch aborts it and undoes the rest. */
    method UpdateOrDelete(statement: Statement) returns (raised: bool)
      modifies this
      ensures raised <==> Raises(old(rows), statement)
      ensures rows == old(rows)
    {
      var before := rows;
      rows := [];
      for i := 0 to |before|
        invariant rows == Effect(before[..i], statement)
        invariant !Raises(before[..i], statement)
      {
        assert before[..i + 1][..i] == before[..i];
        if statement.where(before[i]) {
          rows := before;
          return true;
        }
        rows := rows + [before[i]];
      }
      assert before[..|before|] == before;
      NothingIsMutated(before, statement);
      return false;
    }
  }

  // ── Chains and tips ────────────────────────────────────────────────────────

  /** The row with the greatest chain_position of the organization, as a writer looks it up. */
  function TipOf(rows: seq<AuditEvent>, org: Option<Id>): Option<AuditEvent> {
    if rows == [] then None
    else
      var n := |rows| - 1;
      var before := TipOf(rows[..n], org);
      if rows[n].organizationId != org then before
      else if before.Some? && before.value.chainPosition >= rows[n].chainPosition then before
      else Some(rows[n])
  }

  /** The row a writer builds on the tip it read. */
  function NextRow(h: Scheme, org: Option<Id>, tip: Option<AuditEvent>, a: Attributes): AuditEvent {
    var position := (match tip case None => 0 case Some(t) => t.chainPosition) + 1;
    var prev := match tip case None => h.genesis(org) case Some(t) => t.rowHash;
    Linked(h, org, position, prev, a)
  }

  /** Every organization's chain, and the nil-organization chain, reads dense and linked, and the indexes hold. */
  ghost predicate AllDense(h: Scheme, rows: seq<AuditEvent>) {
    Indexed(rows) && forall org :: Dense(h, org, ReadChain(rows, org))
  }

  lemma {:induction false} TipIsGreatest(rows: seq<AuditEvent>, org: Option<Id>)
    ensures match TipOf(rows, org)
            case None => forall r <- rows :: r.organizationId != org
            case Some(t) => t in rows && t.organizationId == org
                            && forall r <- rows :: r.organizationId == org ==> r.chainPosition <= t.chainPosition
  {
    if rows == [] {
    } else {
      var n := |rows| - 1;
      TipIsGreatest(rows[..n], org);
      assert forall r :: r in rows <==> r in rows[..n] || r == rows[n];
    }
  }

  lemma ReadRows(rows: seq<AuditEvent>, org: Option<Id>)
    requires Indexed(rows)
    ensures Increasing(ReadChain(rows, org))
    ensures forall r :: r in ReadChain(rows, org) <==> r in rows && r.organizationId == org
  {
    ReadChainIs(rows, org, ReadChain(rows, org));
  }

  /** The tip a writer looks up is the last row a verifier reads. */
  lemma TipIsLast(rows: seq<AuditEvent>, org: Option<Id>)
    requires Indexed(rows)
    ensures var c := ReadChain(rows, org);
            TipOf(rows, org) == if c == [] then None else Some(c[|c| - 1])
  {
    var c := ReadChain(rows, org);
    ReadRows(rows, org);
    TipIsGreatest(rows, org);
    if c != [] {
      var last := c[|c| - 1];
      assert last in c;
      var t := TipOf(rows, org).value;
      assert t in c;
      var i :| 0 <= i < |c| && c[i] == t;
    }
  }

  /** A tip read earlier is still in the table, in the same chain, or the chain was empty. */
  ghost predicate WasTip(rows: seq<AuditEvent>, org: Option<Id>, tip: Option<AuditEvent>) {
    tip.Some? ==> tip.value in rows && tip.value.organizationId == org
  }

  /** The indexes admit a row built on a remembered tip if and only if that tip is still the tip. */
  lemma AcceptedIffTipIsCurrent(
    h: Scheme, rows: seq<AuditEvent>, org: Option<Id>, tip: Option<AuditEvent>, a: Attributes)
    requires AllDense(h, rows) && WasTip(rows, org, tip)
    ensures Admits(rows, NextRow(h, org, tip, a)) <==> tip == TipOf(rows, org)
  {
    var e, c := NextRow(h, org, tip, a), ReadChain(rows, org);
    assert Dense(h, org, c);
    TipIsLast(rows, org);
    ReadRows(rows, org);
    forall r | r in rows ensures Collides(r, e) <==> r in c && r.chainPosition == e.chainPosition {
      IndexesGuardEveryChain(r, e);
    }
    forall i | 0 <= i < |c| ensures c[i].chainPosition == i + 1 && c[i] in rows {
      assert DenseAt(h, org, c, i);
      assert c[i] in c;
    }
    if tip == TipOf(rows, org) {
      forall r | r in c ensures r.chainPosition != e.chainPosition {
        var i :| 0 <= i < |c| && c[i] == r;
      }
    } else {
      assert tip.Some? ==> tip.value in c;
      var i := if tip.None? then 0 else (var k :| 0 <= k < |c| && c[k] == tip.value; k + 1);
      assert c[i] in c && Collides(c[i], e);
    }
  }

  lemma AdmittedKeepsIndexed(rows: seq<AuditEvent>, e: AuditEvent)
    requires Indexed(rows) && Admits(rows, e)
    ensures Indexed(rows + [e])
  {
    forall i | 0 <= i < |rows| ensures !SamePlace(rows[i], e) {
      IndexesGuardEveryChain(rows[i], e);
    }
  }

  /** A row added at the next position of its chain is read behind it, and not in any other chain. */
  lemma ReadAppended(h: Scheme, rows: seq<AuditEvent>, e: AuditEvent, org: Option<Id>)
    requires Indexed(rows) && Indexed(rows + [e]) && Dense(h, org, ReadChain(rows, org))
    requires e.organizationId == org ==> e.chainPosition == |ReadChain(rows, org)| + 1
    ensures ReadChain(rows + [e], org) == ReadChain(rows, org) + (if e.organizationId == org then [e] else [])
  {
    var c := ReadChain(rows, org);
    ReadRows(rows, org);
    forall i | 0 <= i < |c| ensures c[i].chainPosition == i + 1 { assert DenseAt(h, org, c, i); }
    ReadChainIs(rows + [e], org, c + (if e.organizationId == org then [e] else []));
  }

  lemma AppendKeepsDense(h: Scheme, rows: seq<AuditEvent>, org: Option<Id>, a: Attributes)
    requires AllDense(h, rows) && Admits(rows, NextRow(h, org, TipOf(rows, org), a))
    ensures AllDense(h, rows + [NextRow(h, org, TipOf(rows, org), a)])
  {
    var e := NextRow(h, org, TipOf(rows, org), a);
    AdmittedKeepsIndexed(rows, e);
    forall o ensures Dense(h, o, ReadChain(rows + [e], o)) {
      var c, c' := ReadChain(rows, o), ReadChain(rows + [e], o);
      assert Dense(h, o, c);
      TipIsLast(rows, o);
      if c != [] { assert DenseAt(h, o, c, |c| - 1); }
      ReadAppended(h, rows, e, o);
      forall i | 0 <= i < |c'| ensures DenseAt(h, o, c', i) {
        if i < |c| { assert DenseAt(h, o, c, i); }
      }
    }
  }

  // ── Racing writers ─────────────────────────────────────────────────────────

  /** What a writer remembers between reading the tip and inserting. */
  datatype Reading = Reading(org: Option<Id>, tip: Option<AuditEvent>)

  /** `origins` records, row by row, the values a row was written from; there are none for a row found there. */
  datatype State = State(rows: seq<AuditEvent>, origins: seq<Option<Attributes>>, writers: map<nat, Reading>)

  datatype Step =
    | ReadTip(writer: nat, org: Option<Id>)
    | Write(writer: nat, attributes: Attributes)
    | Mutate(statement: Statement)

  function Apply(h: Scheme, st: State, step: Step): State {
    match step
    case ReadTip(w, org) => st.(writers := st.writers[w := Reading(org, TipOf(st.rows, org))])
    case Write(w, a) =>
      if w !in st.writers then st
      else
        var e := NextRow(h, st.writers[w].org, st.writers[w].tip, a);
        State(Inserted(h, st.rows, e), if Accepts(h, st.rows, e) then st.origins + [Some(a)] else st.origins,
              st.writers - {w})
    case Mutate(statement) => st.(rows := Executed(st.rows, statement))
  }

  function Exec(h: Scheme, st: State, steps: seq<Step>): State
    decreases steps
  {
    if steps == [] then st else Exec(h, Apply(h, st, steps[0]), steps[1..])
  }

  /** The state in which writers find a table. */
  function From(table: seq<AuditEvent>): State {
    State(table, seq(|table|, _ => None), map[])
  }

  ghost predicate WrittenFrom(h: Scheme, e: AuditEvent, origin: Option<Attributes>) {
    origin.Some? ==> e == Linked(h, e.organizationId, e.chainPosition, e.prevHash, origin.value)
  }

  ghost predicate Inv(h: Scheme, st: State) {
    && AllDense(h, st.rows)
    && |st.origins| == |st.rows| && (forall i :: 0 <= i < |st.rows| ==> WrittenFrom(h, st.rows[i], st.origins[i]))
    && forall w <- st.writers :: WasTip(st.rows, st.writers[w].org, st.writers[w].tip)
  }

  lemma WriteKeepsInv(h: Scheme, st: State, w: nat, a: Attributes)
    requires Inv(h, st)
    ensures Inv(h, Apply(h, st, Write(w, a)))
    ensures st.rows <= Apply(h, st, Write(w, a)).rows
  {
    if w in st.writers {
      var org, tip := st.writers[w].org, st.writers[w].tip;
      AcceptedIffTipIsCurrent(h, st.rows, org, tip, a);
      if Accepts(h, st.rows, NextRow(h, org, tip, a)) {
        AppendKeepsDense(h, st.rows, org, a);
      }
    }
  }

  lemma StepKeepsInv(h: Scheme, st: State, step: Step)
    requires Inv(h, st)
    ensures Inv(h, Apply(h, st, step))
    ensures st.rows <= Apply(h, st, step).rows
  {
    match step
    case ReadTip(w, org) => TipIsGreatest(st.rows, org);
    case Write(w, a) => WriteKeepsInv(h, st, w, a);
    case Mutate(statement) => NothingIsMutated(st.rows, statement);
  }

  /**
   * From any dense table, for every interleaving of writers with stale tips and of attempted mutations: every chain
   * stays dense from 1 and linked back to genesis, no place is taken twice, each row stays as it was written, and no
   * row is lost.
   */
  lemma {:induction false} RacingWritersKeepChainsDense(h: Scheme, st: State, steps: seq<Step>)
    requires Inv(h, st)
    ensures Inv(h, Exec(h, st, steps))
    ensures st.rows <= Exec(h, st, steps).rows
    decreases steps
  {
    if steps == [] {
    } else {
      StepKeepsInv(h, st, steps[0]);
      RacingWritersKeepChainsDense(h, Apply(h, st, steps[0]), steps[1..]);
    }
  }

  // ── What the verifier says of written rows ─────────────────────────────────

  /** Row i belongs to the chain and was written from a value its column changes, or was found not to recompute. */
  ghost predicate Changed(h: Scheme, st: State, org: Option<Id>, i: int)
    requires |st.origins| == |st.rows|
  {
    && 0 <= i < |st.rows| && st.rows[i].organizationId == org
    && match st.origins[i]
       case Some(a) => !h.Durable(a)
       case None => !h.Recomputes(st.rows[i])
  }

  ghost predicate FirstChanged(h: Scheme, st: State, org: Option<Id>, i: int)
    requires |st.origins| == |st.rows|
  {
    && Changed(h, st, org, i)
    && forall j :: Changed(h, st, org, j) ==> st.rows[i].chainPosition <= st.rows[j].chainPosition
  }

  /**
   * The report calls the chain valid if and only if none of its rows was written from a value its column changes, a
   * time above all; otherwise it calls the first such row tampered, though nobody touched it.
   */
  ghost predicate TellsDurability(h: Scheme, st: State, org: Option<Id>, v: Verification)
    requires |st.origins| == |st.rows|
  {
    if v.valid then v.rowsChecked == |ReadChain(st.rows, org)| && forall i :: !Changed(h, st, org, i)
    else v.reason == Some(Tampered)
         && exists i :: FirstChanged(h, st, org, i) && v.brokenAt == Some(st.rows[i].chainPosition)
  }

  /** A row is read where its position says, and is sound there exactly when it was durable. */
  lemma RowIsSoundIff(h: Scheme, st: State, org: Option<Id>, i: nat)
    requires h.CollisionFree() && h.codec.Lawful() && Inv(h, st)
    requires i < |st.rows| && st.rows[i].organizationId == org
    ensures var c, p := ReadChain(st.rows, org), st.rows[i].chainPosition - 1;
            && 0 <= p < |c| && c[p] == st.rows[i]
            && Fault(h, org, c, p) == if Changed(h, st, org, i) then Some(Tampered) else None
  {
    var c, e := ReadChain(st.rows, org), st.rows[i];
    assert Dense(h, org, c);
    ReadRows(st.rows, org);
    assert e in c;
    var p :| 0 <= p < |c| && c[p] == e;
    assert DenseAt(h, org, c, p) && WrittenFrom(h, e, st.origins[i]);
    if st.origins[i].Some? {
      FreshRowRecomputesIff(h, org, e.chainPosition, e.prevHash, st.origins[i].value);
    }
  }

  lemma ReportOnReachable(h: Scheme, st: State, org: Option<Id>, v: Verification)
    requires h.CollisionFree() && h.codec.Lawful() && Inv(h, st)
    requires Reports(h, org, ReadChain(st.rows, org), v)
    ensures TellsDurability(h, st, org, v)
  {
    var c := ReadChain(st.rows, org);
    if v.valid {
      forall i ensures !Changed(h, st, org, i) {
        if 0 <= i < |st.rows| && st.rows[i].organizationId == org { RowIsSoundIff(h, st, org, i); }
      }
    } else {
      var k :| BreaksFirstAt(h, org, c, k) && v == Broken(h, org, c, k);
      var i := FirstBrokenIsChanged(h, st, org, k);
      assert FirstChanged(h, st, org, i) && v.brokenAt == Some(st.rows[i].chainPosition);
    }
  }

  lemma FirstBrokenIsChanged(h: Scheme, st: State, org: Option<Id>, k: nat) returns (i: nat)
    requires h.CollisionFree() && h.codec.Lawful() && Inv(h, st)
    requires BreaksFirstAt(h, org, ReadChain(st.rows, org), k)
    ensures i < |st.rows| && st.rows[i] == ReadChain(st.rows, org)[k]
    ensures FirstChanged(h, st, org, i) && Fault(h, org, ReadChain(st.rows, org), k) == Some(Tampered)
  {
    var c := ReadChain(st.rows, org);
    assert Dense(h, org, c) && DenseAt(h, org, c, k);
    ReadRows(st.rows, org);
    assert c[k] in c;
    i :| 0 <= i < |st.rows| && st.rows[i] == c[k];
    RowIsSoundIff(h, st, org, i);
    forall j | Changed(h, st, org, j) ensures st.rows[i].chainPosition <= st.rows[j].chainPosition {
      RowIsSoundIff(h, st, org, j);
    }
  }

  method VerifyReachable(h: Scheme, table: seq<AuditEvent>, steps: seq<Step>, org: Option<Id>)
    returns (v: Verification)
    requires h.CollisionFree() && h.codec.Lawful() && AllDense(h, table)
    ensures var st := Exec(h, From(table), steps);
            |st.origins| == |st.rows| && TellsDurability(h, st, org, v)
  {
    RacingWritersKeepChainsDense(h, From(table), steps);
    var st := Exec(h, From(table), steps);
    v := VerifyOrganization(h, org, st.rows);
    ReportOnReachable(h, st, org, v);
  }

  lemma EmptyIsDense(h: Scheme)
    ensures AllDense(h, [])
  {
    forall org ensures Dense(h, org, ReadChain([], org)) {
      ReadRows([], org);
      assert forall i :: 0 <= i < |ReadChain([], org)| ==> ReadChain([], org)[i] in ReadChain([], org);
    }
  }

  /** What the presence validations ask of the values a writer passes; the other snapshot and metadata are free. */
  ghost predicate Acceptable(a: Attributes) {
    && (exists c <- a.actor :: !IsSpace(c))
    && (exists c <- a.entityType :: !IsSpace(c))
    && (exists c <- a.eventType :: !IsSpace(c))
    && match a.afterSnapshot
       case Nil => false
       case Bool(b) => b
       case Text(s) => exists c <- s :: !IsSpace(c)
       case List(elems) => |elems| > 0
       case Hash(fields) => |fields| > 0
       case Int(_) => true
       case Float(_) => true
       case Time(_) => true
  }

  lemma ValidEventIff(h: Scheme, org: Option<Id>, tip: Option<AuditEvent>, a: Attributes)
    ensures ValidEvent(h, NextRow(h, org, tip, a)) <==> Acceptable(a)
  {
    h.codec.PresentSurvives(a.afterSnapshot);
  }

  /** The row at the end of a chain: version 1, the next position, the link to the last row, and the values passed. */
  ghost predicate Continues(h: Scheme, org: Option<Id>, chain: seq<AuditEvent>, a: Attributes, e: AuditEvent) {
    && e.hashVersion == 1 && e.organizationId == org && e.chainPosition == |chain| + 1
    && e.prevHash == (if chain == [] then h.genesis(org) else chain[|chain| - 1].rowHash)
    && h.Read(e.content).(beforeSnapshot := Nil, afterSnapshot := Nil, metadata := Nil)
       == a.(beforeSnapshot := Nil, afterSnapshot := Nil, metadata := Nil)
  }

  lemma NextRowContinues(h: Scheme, rows: seq<AuditEvent>, org: Option<Id>, a: Attributes)
    requires AllDense(h, rows)
    ensures Continues(h, org, ReadChain(rows, org), a, NextRow(h, org, TipOf(rows, org), a))
  {
    TipIsLast(rows, org);
    var chain := ReadChain(rows, org);
    assert Dense(h, org, chain);
    if chain != [] { assert DenseAt(h, org, chain, |chain| - 1); }
  }

  /** A writer on the current tip adds its row at the end of the chain exactly when its event is acceptable. */
  lemma WriterOnTipIsAccepted(h: Scheme, st: State, w: nat, a: Attributes)
    requires Inv(h, st) && w in st.writers && st.writers[w].tip == TipOf(st.rows, st.writers[w].org)
    ensures var org := st.writers[w].org;
            var after := Apply(h, st, Write(w, a));
            if !Acceptable(a) then after.rows == st.rows
            else
              && |after.rows| == |st.rows| + 1 && after.rows[..|st.rows|] == st.rows
              && Continues(h, org, ReadChain(st.rows, org), a, after.rows[|st.rows|])
  {
    var org, tip := st.writers[w].org, st.writers[w].tip;
    ValidEventIff(h, org, tip, a);
    AcceptedIffTipIsCurrent(h, st.rows, org, tip, a);
    NextRowContinues(h, st.rows, org, a);
  }

  lemma FirstWrite(h: Scheme, org: Option<Id>, a: Attributes)
    requires ValidEvent(h, NextRow(h, org, None, a))
    ensures var st := Exec(h, From([]), [ReadTip(0, org), Write(0, a)]);
            st.rows == [NextRow(h, org, None, a)] && st.origins == [Some(a)]
  {
    var steps, read := [ReadTip(0, org), Write(0, a)], Apply(h, From([]), ReadTip(0, org));
    assert steps[1..] == [Write(0, a)] && steps[1..][1..] == [];
    assert Exec(h, From([]), steps) == Exec(h, read, [Write(0, a)]) == Exec(h, Apply(h, read, Write(0, a)), []);
  }

  /** A chain's first event with a task snapshot, written as every task event is: the verifier calls it tampered. */
  method VerifyTaskEvent(h: Scheme, org: Option<Id>, a: Attributes, task: map<string, Value>) returns (v: Verification)
    requires h.CollisionFree() && h.codec.Lawful()
    requires a.afterSnapshot == Hash(task - {"updated_at"}) && "created_at" in task && task["created_at"].Time?
    requires (exists c <- a.actor :: !IsSpace(c)) && (exists c <- a.entityType :: !IsSpace(c))
    requires exists c <- a.eventType :: !IsSpace(c)
    ensures !v.valid && v.brokenAt == Some(1) && v.reason == Some(Tampered)
  {
    var steps := [ReadTip(0, org), Write(0, a)];
    h.codec.TaskSnapshotIsNotDurable(task);
    assert task - {"updated_at"} != map[] by { assert !h.codec.Durable(Hash(task - {"updated_at"})); }
    ValidEventIff(h, org, None, a);
    FirstWrite(h, org, a);
    EmptyIsDense(h);
    v := VerifyReachable(h, [], steps, org);
    var st := Exec(h, From([]), steps);
    assert Changed(h, st, org, 0);
  }

  /** Two writers that read the same tip: the first valid insert is accepted, the second refused. */
  lemma SecondOfTwoIsRefused(h: Scheme, st: State, w: nat, v: nat, first: Attributes, second: Attributes)
    requires Inv(h, st) && w != v && w in st.writers && v in st.writers
    requires st.writers[w] == st.writers[v] && st.writers[w].tip == TipOf(st.rows, st.writers[w].org)
    requires Acceptable(first)
    ensures var once := Apply(h, st, Write(w, first));
            && |once.rows| == |st.rows| + 1
            && Apply(h, once, Write(v, second)).rows == once.rows
  {
    var org, tip := st.writers[w].org, st.writers[w].tip;
    ValidEventIff(h, org, tip, first);
    AcceptedIffTipIsCurrent(h, st.rows, org, tip, first);
    var e, once := NextRow(h, org, tip, first), Apply(h, st, Write(w, first));
    var late := NextRow(h, org, tip, second);
    IndexesGuardEveryChain(e, late);
    assert e in once.rows;
  }
}

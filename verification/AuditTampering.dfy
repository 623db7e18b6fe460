/** What verifying a chain reveals about rows changed, moved, re-keyed or dropped behind the triggers' back. */
module AuditTampering {
  import opened Options
  import opened AuditChain

  // ── Chains that end in the same hash ───────────────────────────────────────

  /** Two stored rows no hash can tell apart. */
  predicate SameEvent(h: Scheme, a: AuditEvent, b: AuditEvent) {
    h.CanonicalPayload(a) == h.CanonicalPayload(b) && a.rowHash == b.rowHash
  }

  /** Which edits of the content no hash sees: an absent action for an empty one, and snapshots that read alike. */
  lemma UnhashedDifferences(h: Scheme, c: Columns, d: Columns)
    ensures h.Canonical(h.Read(c)) == h.Canonical(h.Read(d)) <==>
            && c.(action := d.action, beforeSnapshot := d.beforeSnapshot, afterSnapshot := d.afterSnapshot,
                  metadata := d.metadata) == d
            && (c.action == d.action || {c.action, d.action} == {None, Some("")})
            && h.codec.AlikeColumns(c.beforeSnapshot, d.beforeSnapshot)
            && h.codec.AlikeColumns(c.afterSnapshot, d.afterSnapshot)
            && h.codec.AlikeColumns(c.metadata, d.metadata)
  {
    h.codec.LoadedAlikeIff(c.beforeSnapshot, d.beforeSnapshot);
    h.codec.LoadedAlikeIff(c.afterSnapshot, d.afterSnapshot);
    h.codec.LoadedAlikeIff(c.metadata, d.metadata);
    ActionsHashAlikeIff(c.action, d.action);
  }

  /** Two rows hash alike exactly when every other column agrees, up to those differences. */
  lemma RowsHashAlikeIff(h: Scheme, a: AuditEvent, b: AuditEvent)
    requires h.CollisionFree()
    ensures h.Compute(a) == h.Compute(b) <==>
            && a.hashVersion == b.hashVersion && a.organizationId == b.organizationId
            && a.chainPosition == b.chainPosition && a.prevHash == b.prevHash
            && a.content.(action := b.content.action, beforeSnapshot := b.content.beforeSnapshot,
                          afterSnapshot := b.content.afterSnapshot, metadata := b.content.metadata) == b.content
            && (a.content.action == b.content.action || {a.content.action, b.content.action} == {None, Some("")})
            && h.codec.AlikeColumns(a.content.beforeSnapshot, b.content.beforeSnapshot)
            && h.codec.AlikeColumns(a.content.afterSnapshot, b.content.afterSnapshot)
            && h.codec.AlikeColumns(a.content.metadata, b.content.metadata)
  {
    h.EqualDigests(a, b);
    UnhashedDifferences(h, a.content, b.content);
  }

  lemma ActionsHashAlikeIff(a: Option<string>, b: Option<string>)
    ensures ToS(a) == ToS(b) <==> a == b || {a, b} == {None, Some("")}
  {
    assert {a, b} == {None, Some("")} ==> a in {None, Some("")} && b in {None, Some("")};
    assert a != b && ToS(a) == ToS(b) ==> {a, b} == {None, Some("")};
  }

  /** Equal digests anywhere mean the same position, the same event, and equal digests one row back. */
  lemma EqualDigestsLineUp(h: Scheme, org: Option<Id>, s: seq<AuditEvent>, i: nat, t: seq<AuditEvent>, j: nat)
    requires h.CollisionFree() && Sound(h, org, s) && Sound(h, org, t)
    requires i < |s| && j < |t| && s[i].rowHash == t[j].rowHash
    ensures i == j && SameEvent(h, s[i], t[j])
    ensures i > 0 ==> s[i - 1].rowHash == t[j - 1].rowHash
  {
    assert SoundAt(h, org, s, i) && SoundAt(h, org, t, j);
    h.EqualDigests(s[i], t[j]);
  }

  lemma {:induction false} EqualDigestsFixPrefix(
    h: Scheme, org: Option<Id>, s: seq<AuditEvent>, t: seq<AuditEvent>, i: nat)
    requires h.CollisionFree() && Sound(h, org, s) && Sound(h, org, t)
    requires i < |s| && i < |t| && s[i].rowHash == t[i].rowHash
    ensures forall k :: 0 <= k <= i ==> SameEvent(h, s[k], t[k])
  {
    EqualDigestsLineUp(h, org, s, i, t, i);
    if i == 0 {
    } else {
      EqualDigestsFixPrefix(h, org, s, t, i - 1);
    }
  }

  /** The last row_hash fixes the whole chain: two sound chains that end in it are equal row by row. */
  lemma LastHashFixesChain(h: Scheme, org: Option<Id>, s: seq<AuditEvent>, t: seq<AuditEvent>)
    requires h.CollisionFree() && Sound(h, org, s) && Sound(h, org, t)
    requires s != [] && t != [] && s[|s| - 1].rowHash == t[|t| - 1].rowHash
    ensures |s| == |t| && forall i :: 0 <= i < |s| ==> SameEvent(h, s[i], t[i])
  {
    EqualDigestsLineUp(h, org, s, |s| - 1, t, |t| - 1);
    EqualDigestsFixPrefix(h, org, s, t, |s| - 1);
  }

  /** So any rewriting that leaves the last row in place, be it edits, reordering, drops or insertions, is reported. */
  lemma RewritingIsDetected(h: Scheme, org: Option<Id>, s: seq<AuditEvent>, t: seq<AuditEvent>)
    requires h.CollisionFree() && Sound(h, org, s)
    requires s != [] && t != [] && SameEvent(h, t[|t| - 1], s[|s| - 1])
    requires |s| != |t| || exists i :: 0 <= i < |s| && !SameEvent(h, s[i], t[i])
    requires forall i :: 0 <= i < |t| ==> t[i].organizationId == org
    ensures exists k :: BreaksFirstAt(h, org, t, k)
  {
    if Intact(h, org, t) {
      IntactIsSound(h, org, t);
      LastHashFixesChain(h, org, s, t);
      assert false;
    }
    var k := FirstFault(h, org, t, 0);
    assert BreaksFirstAt(h, org, t, k);
  }

  lemma IntactIsSound(h: Scheme, org: Option<Id>, rows: seq<AuditEvent>)
    requires forall i :: 0 <= i < |rows| ==> rows[i].organizationId == org
    ensures Intact(h, org, rows) <==> Sound(h, org, rows)
  {
    forall i | 0 <= i < |rows| ensures Fault(h, org, rows, i) == None <==> SoundAt(h, org, rows, i) {}
  }

  ghost function FirstFault(h: Scheme, org: Option<Id>, rows: seq<AuditEvent>, i: nat): (k: nat)
    requires i <= |rows|
    requires forall j :: 0 <= j < i ==> Fault(h, org, rows, j) == None
    requires !Intact(h, org, rows)
    ensures BreaksFirstAt(h, org, rows, k)
    decreases |rows| - i
  {
    if Fault(h, org, rows, i) != None then i else FirstFault(h, org, rows, i + 1)
  }

  // ── One row of a table changed ─────────────────────────────────────────────

  /** Row k of the table is row i of its chain, the chain is sound, and the indexes still hold after the edit. */
  ghost predicate Edits(h: Scheme, org: Option<Id>, table: seq<AuditEvent>, k: nat, e: AuditEvent, i: nat) {
    && k < |table| && Indexed(table) && Indexed(table[k := e])
    && Sound(h, org, ReadChain(table, org))
    && i < |ReadChain(table, org)| && ReadChain(table, org)[i] == table[k]
  }

  lemma EditedRows(table: seq<AuditEvent>, k: nat, e: AuditEvent)
    requires k < |table| && Indexed(table)
    ensures forall r :: r in table[k := e] <==> r == e || (r in table && r != table[k])
  {
    forall r ensures r in table[k := e] <==> r == e || (r in table && r != table[k]) {
      if r in table && r != table[k] {
        var j :| 0 <= j < |table| && table[j] == r;
        assert table[k := e][j] == r;
      }
      if r in table[k := e] && r != e {
        var j :| 0 <= j < |table| && table[k := e][j] == r;
        assert j != k && !SamePlace(table[j], table[k]);
      }
      assert table[k := e][k] == e;
    }
  }

  lemma SoundIsIncreasing(h: Scheme, org: Option<Id>, rows: seq<AuditEvent>)
    requires Sound(h, org, rows)
    ensures Increasing(rows) && forall i :: 0 <= i < |rows| ==> rows[i].chainPosition == i + 1
  {
    forall i | 0 <= i < |rows| ensures rows[i].chainPosition == i + 1 {
      assert SoundAt(h, org, rows, i);
    }
  }

  /** A row left in its chain at its position is read in its place. */
  lemma ReadEditedInPlace(h: Scheme, org: Option<Id>, table: seq<AuditEvent>, k: nat, e: AuditEvent, i: nat)
    requires Edits(h, org, table, k, e, i) && SamePlace(e, table[k])
    ensures ReadChain(table[k := e], org) == ReadChain(table, org)[i := e]
  {
    var c := ReadChain(table, org);
    ReadChainIs(table, org, c);
    SoundIsIncreasing(h, org, c);
    EditedRows(table, k, e);
    forall r ensures r in c[i := e] <==> r in table[k := e] && r.organizationId == org {
      InEdited(c, i, e, r);
      assert c[i] in c;
    }
    ReadChainIs(table[k := e], org, c[i := e]);
  }

  lemma InEdited(rows: seq<AuditEvent>, i: nat, e: AuditEvent, r: AuditEvent)
    requires i < |rows| && Increasing(rows)
    ensures r in rows[i := e] <==> r == e || (r in rows && r != rows[i])
  {
    if r in rows && r != rows[i] {
      var j :| 0 <= j < |rows| && rows[j] == r;
      assert rows[i := e][j] == r;
    }
    if r in rows[i := e] && r != e {
      var j :| 0 <= j < |rows| && rows[i := e][j] == r;
      assert rows[j] == r && j != i;
    }
    assert rows[i := e][i] == e;
  }

  /**
   * Any edit in place: it is reported at that row exactly when the row's link or hash no longer fits, otherwise at the
   * next row exactly when its row_hash is a new one, and not at all when neither holds or there is no next row.
   */
  lemma EditIsReported(h: Scheme, org: Option<Id>, table: seq<AuditEvent>, k: nat, e: AuditEvent, i: nat)
    requires Edits(h, org, table, k, e, i) && SamePlace(e, table[k])
    ensures var edited := ReadChain(table[k := e], org);
            var fits := e.prevHash == table[k].prevHash && h.Recomputes(e);
            var breaksNext := i + 1 < |edited| && e.rowHash != table[k].rowHash;
            && (BreaksFirstAt(h, org, edited, i) <==> !fits)
            && (BreaksFirstAt(h, org, edited, i + 1) <==> fits && breaksNext)
            && (fits && breaksNext ==> Fault(h, org, edited, i + 1) == Some(BrokenLink))
            && (Sound(h, org, edited) <==> fits && !breaksNext)
  {
    var c, edited := ReadChain(table, org), ReadChain(table[k := e], org);
    ReadEditedInPlace(h, org, table, k, e, i);
    assert SoundAt(h, org, c, i);
    forall j | 0 <= j < |c| && j != i && j != i + 1
      ensures SoundAt(h, org, edited, j) && Fault(h, org, edited, j) == None
    {
      assert SoundAt(h, org, c, j);
    }
    assert SoundAt(h, org, edited, i) <==> Fault(h, org, edited, i) == None;
    if i + 1 < |c| {
      assert SoundAt(h, org, c, i + 1);
      assert SoundAt(h, org, edited, i + 1) <==> e.rowHash == c[i].rowHash;
    }
  }

  /** An edit in place that leaves row_hash alone is reported at that row, unless no hashed value changed. */
  lemma EditKeepingHashIsReportedThere(
    h: Scheme, org: Option<Id>, table: seq<AuditEvent>, k: nat, e: AuditEvent, i: nat)
    requires h.CollisionFree() && Edits(h, org, table, k, e, i)
    requires SamePlace(e, table[k]) && e.rowHash == table[k].rowHash
    ensures var edited := ReadChain(table[k := e], org);
            && (BreaksFirstAt(h, org, edited, i) <==> h.CanonicalPayload(e) != h.CanonicalPayload(table[k]))
            && (Sound(h, org, edited) <==> h.CanonicalPayload(e) == h.CanonicalPayload(table[k]))
  {
    EditIsReported(h, org, table, k, e, i);
    assert SoundAt(h, org, ReadChain(table, org), i);
    h.EqualDigests(e, table[k]);
  }

  /** An edit in place with a recomputed row_hash is reported at the next row, and on the last row not at all. */
  lemma EditRecomputingHashIsReportedNext(
    h: Scheme, org: Option<Id>, table: seq<AuditEvent>, k: nat, e: AuditEvent, i: nat)
    requires h.CollisionFree() && Edits(h, org, table, k, e, i)
    requires SamePlace(e, table[k]) && e.prevHash == table[k].prevHash
    requires h.Recomputes(e) && h.CanonicalPayload(e) != h.CanonicalPayload(table[k])
    ensures var edited := ReadChain(table[k := e], org);
            if i + 1 == |edited| then Sound(h, org, edited)
            else BreaksFirstAt(h, org, edited, i + 1) && Fault(h, org, edited, i + 1) == Some(BrokenLink)
  {
    ReadEditedInPlace(h, org, table, k, e, i);
    EditIsReported(h, org, table, k, e, i);
    assert SoundAt(h, org, ReadChain(table, org), i);
    h.EqualDigests(e, table[k]);
  }

  // ── A row taken out of its chain ───────────────────────────────────────────

  function Without(rows: seq<AuditEvent>, i: nat): seq<AuditEvent>
    requires i < |rows|
  {
    rows[..i] + rows[i + 1..]
  }

  lemma InWithout(rows: seq<AuditEvent>, i: nat, r: AuditEvent)
    requires i < |rows| && Increasing(rows)
    ensures Increasing(Without(rows, i))
    ensures r in Without(rows, i) <==> r in rows && r != rows[i]
  {
    if r in rows && r != rows[i] {
      var j :| 0 <= j < |rows| && rows[j] == r;
      assert Without(rows, i)[if j < i then j else j - 1] == r;
    }
    if r in Without(rows, i) {
      var j :| 0 <= j < |Without(rows, i)| && Without(rows, i)[j] == r;
      assert rows[if j < i then j else j + 1] == r;
    }
  }

  /** A chain without one row breaks there, as a gap, unless it was the last. */
  lemma DropIsReported(h: Scheme, org: Option<Id>, rows: seq<AuditEvent>, i: nat)
    requires Sound(h, org, rows) && i < |rows|
    ensures if i + 1 == |rows| then Sound(h, org, Without(rows, i))
            else BreaksFirstAt(h, org, Without(rows, i), i) && Fault(h, org, Without(rows, i), i) == Some(PositionGap)
  {
    var kept := Without(rows, i);
    forall j | 0 <= j < i ensures SoundAt(h, org, kept, j) && Fault(h, org, kept, j) == None {
      assert SoundAt(h, org, rows, j);
    }
    if i + 1 < |rows| {
      assert SoundAt(h, org, rows, i + 1) && kept[i] == rows[i + 1];
    } else {
      assert kept == rows[..i];
    }
  }

  /** Dropping a row of the table, or giving it to another organization, takes it out of what is read. */
  lemma ReadWithoutRow(h: Scheme, org: Option<Id>, table: seq<AuditEvent>, k: nat, i: nat, after: seq<AuditEvent>)
    requires Indexed(table) && Indexed(after) && k < |table|
    requires Sound(h, org, ReadChain(table, org))
    requires i < |ReadChain(table, org)| && ReadChain(table, org)[i] == table[k]
    requires forall r: AuditEvent | r.organizationId == org :: r in after <==> r in table && r != table[k]
    ensures ReadChain(after, org) == Without(ReadChain(table, org), i)
  {
    var c := ReadChain(table, org);
    ReadChainIs(table, org, c);
    SoundIsIncreasing(h, org, c);
    forall r ensures Increasing(Without(c, i)) && (r in Without(c, i) <==> r in after && r.organizationId == org) {
      InWithout(c, i, r);
    }
    assert Increasing(Without(c, i)) by { InWithout(c, i, c[i]); }
    ReadChainIs(after, org, Without(c, i));
  }

  /** Where a newcomer stands among a dense chain's positions: before all of them or after all of them. */
  function Newcomer(rows: seq<AuditEvent>, e: AuditEvent): seq<AuditEvent> {
    if e.chainPosition < 1 then [e] + rows else rows + [e]
  }

  lemma ReadWithNewcomer(h: Scheme, org: Option<Id>, rows: seq<AuditEvent>, e: AuditEvent, after: seq<AuditEvent>)
    requires Indexed(after) && Increasing(rows) && e.organizationId == org
    requires forall r <- rows :: 1 <= r.chainPosition && (r.chainPosition < e.chainPosition || e.chainPosition < 1)
    requires forall r :: r in after && r.organizationId == org <==> r == e || r in rows
    ensures ReadChain(after, org) == Newcomer(rows, e)
  {
    var all := Newcomer(rows, e);
    assert Increasing(all) by {
      forall r | r in rows ensures 1 <= r.chainPosition && (r.chainPosition < e.chainPosition || e.chainPosition < 1) {}
      forall i | 0 <= i < |rows| ensures rows[i] in rows {}
    }
    assert forall r :: r in all <==> r == e || r in rows;
    ReadChainIs(after, org, all);
  }

  /** A newcomer fits a sound chain only as its properly linked and hashed next row. */
  lemma NewcomerFitsIff(h: Scheme, org: Option<Id>, rows: seq<AuditEvent>, e: AuditEvent)
    requires Sound(h, org, rows) && e.organizationId == org
    requires e.chainPosition < 1 || e.chainPosition > |rows|
    ensures var at := if e.chainPosition < 1 then 0 else |rows|;
            var fits := && e.chainPosition == |rows| + 1 && e.prevHash == Expected(h, org, rows, |rows|)
                        && h.Recomputes(e);
            if fits then Sound(h, org, Newcomer(rows, e)) else BreaksFirstAt(h, org, Newcomer(rows, e), at)
  {
    var all := Newcomer(rows, e);
    if e.chainPosition >= 1 {
      forall j | 0 <= j < |rows| ensures SoundAt(h, org, all, j) && Fault(h, org, all, j) == None {
        assert SoundAt(h, org, rows, j);
      }
    }
  }

  /** The indexes leave a row that changes its place only positions the chain it goes to does not hold. */
  lemma NewPositionIsOutside(h: Scheme, org: Option<Id>, table: seq<AuditEvent>, k: nat, e: AuditEvent)
    requires k < |table| && Indexed(table) && Indexed(table[k := e])
    requires e.organizationId == org && !SamePlace(e, table[k]) && Sound(h, org, ReadChain(table, org))
    ensures e.chainPosition < 1 || e.chainPosition > |ReadChain(table, org)|
  {
    var c := ReadChain(table, org);
    ReadChainIs(table, org, c);
    SoundIsIncreasing(h, org, c);
    forall x | 0 <= x < |c| ensures c[x].chainPosition != e.chainPosition {
      assert c[x] in c;
      var j :| 0 <= j < |table| && table[j] == c[x];
      if j != k {
        var low, high := if j < k then j else k, if j < k then k else j;
        assert !SamePlace(table[k := e][low], table[k := e][high]);
      }
    }
    HeldPositions(c, e.chainPosition);
  }

  lemma HeldPositions(rows: seq<AuditEvent>, p: int)
    requires forall i :: 0 <= i < |rows| ==> rows[i].chainPosition == i + 1
    ensures (exists i :: 0 <= i < |rows| && rows[i].chainPosition == p) <==> 1 <= p <= |rows|
  {
    if 1 <= p <= |rows| {
      assert rows[p - 1].chainPosition == p;
    }
  }

  /** A row moved to another position of its chain leaves a gap, or comes first where no row may be. */
  lemma MoveIsReported(h: Scheme, org: Option<Id>, table: seq<AuditEvent>, k: nat, e: AuditEvent, i: nat)
    requires Edits(h, org, table, k, e, i)
    requires e.organizationId == org && e.chainPosition != table[k].chainPosition
    ensures var at := if e.chainPosition < 1 then 0 else i;
            var moved := ReadChain(table[k := e], org);
            && moved == Newcomer(Without(ReadChain(table, org), i), e)
            && BreaksFirstAt(h, org, moved, at) && Fault(h, org, moved, at) == Some(PositionGap)
  {
    var c, after := ReadChain(table, org), table[k := e];
    var kept := Without(c, i);
    ReadChainIs(table, org, c);
    SoundIsIncreasing(h, org, c);
    EditedRows(table, k, e);
    InWithout(c, i, e);
    forall r | r in kept ensures 1 <= r.chainPosition && (r.chainPosition < e.chainPosition || e.chainPosition < 1) {
      InWithout(c, i, r);
      NewPositionIsOutside(h, org, table, k, e);
      var j :| 0 <= j < |c| && c[j] == r;
    }
    forall r ensures r in after && r.organizationId == org <==> r == e || r in kept {
      InWithout(c, i, r);
    }
    ReadWithNewcomer(h, org, kept, e, after);
    DropIsReported(h, org, c, i);
    if e.chainPosition >= 1 {
      forall j | 0 <= j < i ensures Fault(h, org, Newcomer(kept, e), j) == None {
        assert SoundAt(h, org, c, j);
      }
    }
  }

  /**
   * A row re-keyed to another organization leaves a gap in its own chain, unless it was the last, and in the other
   * chain it is reported unless it was forged into that chain's next row; with its old hash it always is.
   */
  lemma RekeyIsReported(
    h: Scheme, org: Option<Id>, other: Option<Id>, table: seq<AuditEvent>, k: nat, e: AuditEvent, i: nat)
    requires h.CollisionFree() && Edits(h, org, table, k, e, i)
    requires e.organizationId == other != org && Sound(h, other, ReadChain(table, other))
    ensures var left := ReadChain(table[k := e], org);
            if i + 1 == |ReadChain(table, org)| then Sound(h, org, left)
            else BreaksFirstAt(h, org, left, i) && Fault(h, org, left, i) == Some(PositionGap)
    ensures var d, joined := ReadChain(table, other), ReadChain(table[k := e], other);
            var forged := && e.chainPosition == |d| + 1 && e.prevHash == Expected(h, other, d, |d|)
                          && h.Recomputes(e);
            && (if forged then Sound(h, other, joined)
                else BreaksFirstAt(h, other, joined, if e.chainPosition < 1 then 0 else |d|))
            && (e.rowHash == table[k].rowHash ==> !forged)
  {
    var c, d, after := ReadChain(table, org), ReadChain(table, other), table[k := e];
    assert table[k].organizationId == org by {
      ReadChainIs(table, org, c);
      assert c[i] in c;
    }
    EditedRows(table, k, e);
    ReadWithoutRow(h, org, table, k, i, after);
    DropIsReported(h, org, c, i);
    ReadJoined(h, other, table, k, e);
    NewcomerFitsIff(h, other, d, e);
    assert SoundAt(h, org, c, i);
    h.EqualDigests(e, table[k]);
  }

  lemma ReadJoined(h: Scheme, other: Option<Id>, table: seq<AuditEvent>, k: nat, e: AuditEvent)
    requires k < |table| && Indexed(table) && Indexed(table[k := e])
    requires e.organizationId == other != table[k].organizationId && Sound(h, other, ReadChain(table, other))
    ensures ReadChain(table[k := e], other) == Newcomer(ReadChain(table, other), e)
    ensures e.chainPosition < 1 || e.chainPosition > |ReadChain(table, other)|
  {
    var d := ReadChain(table, other);
    ReadChainIs(table, other, d);
    SoundIsIncreasing(h, other, d);
    NewPositionIsOutside(h, other, table, k, e);
    EditedRows(table, k, e);
    forall r | r in d ensures 1 <= r.chainPosition && (r.chainPosition < e.chainPosition || e.chainPosition < 1) {
      var j :| 0 <= j < |d| && d[j] == r;
    }
    ReadWithNewcomer(h, other, d, e, table[k := e]);
  }

  /** Deleting a row of the table is reported in its chain as a gap, unless it was the last. */
  lemma DeleteIsReported(h: Scheme, org: Option<Id>, table: seq<AuditEvent>, k: nat, i: nat)
    requires k < |table| && Indexed(table) && Sound(h, org, ReadChain(table, org))
    requires i < |ReadChain(table, org)| && ReadChain(table, org)[i] == table[k]
    ensures var left := ReadChain(table[..k] + table[k + 1..], org);
            if i + 1 == |ReadChain(table, org)| then Sound(h, org, left)
            else BreaksFirstAt(h, org, left, i) && Fault(h, org, left, i) == Some(PositionGap)
  {
    var after := table[..k] + table[k + 1..];
    forall r ensures r in after <==> r in table && r != table[k] {
      if r in table && r != table[k] {
        var j :| 0 <= j < |table| && table[j] == r;
        assert after[if j < k then j else j - 1] == r;
      }
      if r in after {
        var j :| 0 <= j < |after| && after[j] == r;
        var at := if j < k then j else j + 1;
        assert table[at] == r && at != k;
        assert !SamePlace(table[if at < k then at else k], table[if at < k then k else at]);
      }
    }
    assert Indexed(after) by {
      forall x, y | 0 <= x < y < |after| ensures !SamePlace(after[x], after[y]) {
        assert after[x] == table[if x < k then x else x + 1] && after[y] == table[if y < k then y else y + 1];
      }
    }
    ReadWithoutRow(h, org, table, k, i, after);
    DropIsReported(h, org, ReadChain(table, org), i);
  }

  // ── Behind the first break ─────────────────────────────────────────────────

  lemma {:induction false} FirstPositions(rows: seq<AuditEvent>, last: int) returns (n: nat)
    requires Increasing(rows)
    ensures n <= |rows| && forall r :: r in rows[..n] <==> r in rows && r.chainPosition <= last
  {
    if rows == [] {
      n := 0;
    } else if rows[|rows| - 1].chainPosition <= last {
      n := |rows|;
      assert rows[..n] == rows;
    } else {
      var front := rows[..|rows| - 1];
      n := FirstPositions(front, last);
      assert front[..n] == rows[..n];
      assert rows == front + [rows[|rows| - 1]];
    }
  }

  lemma InFirst(rows: seq<AuditEvent>, k: nat)
    requires Increasing(rows) && k < |rows|
    ensures forall r :: r in rows[..k + 1] <==> r in rows && r.chainPosition <= rows[k].chainPosition
  {
    forall r | r in rows && r.chainPosition <= rows[k].chainPosition ensures r in rows[..k + 1] {
      var j :| 0 <= j < |rows| && rows[j] == r;
      assert rows[..k + 1][j] == r;
    }
  }

  /** Two tables with the same rows of a chain up to a position are read alike up to it. */
  lemma ReadAlikeUpTo(org: Option<Id>, s: seq<AuditEvent>, t: seq<AuditEvent>, k: nat)
    requires Indexed(s) && Indexed(t) && k < |ReadChain(s, org)|
    requires forall r: AuditEvent |
               r.organizationId == org && r.chainPosition <= ReadChain(s, org)[k].chainPosition :: r in s <==> r in t
    ensures k < |ReadChain(t, org)| && ReadChain(t, org)[..k + 1] == ReadChain(s, org)[..k + 1]
  {
    var c, d := ReadChain(s, org), ReadChain(t, org);
    ReadChainIs(s, org, c);
    ReadChainIs(t, org, d);
    var n := FirstPositions(d, c[k].chainPosition);
    InFirst(c, k);
    SameRowsSameOrder(c[..k + 1], d[..n]);
  }

  /** Whatever is edited, added or deleted behind the first break, the report of that break stays the same. */
  lemma NothingShowsBehindBreak(h: Scheme, org: Option<Id>, s: seq<AuditEvent>, t: seq<AuditEvent>, k: nat,
                                v: Verification, w: Verification)
    requires Indexed(s) && Indexed(t) && BreaksFirstAt(h, org, ReadChain(s, org), k)
    requires forall r: AuditEvent |
               r.organizationId == org && r.chainPosition <= ReadChain(s, org)[k].chainPosition :: r in s <==> r in t
    requires Reports(h, org, ReadChain(s, org), v) && Reports(h, org, ReadChain(t, org), w)
    ensures v == w == Broken(h, org, ReadChain(s, org), k)
  {
    var c, d := ReadChain(s, org), ReadChain(t, org);
    ReadAlikeUpTo(org, s, t, k);
    SameStartSameBreak(h, org, c, d, k);
    OneFirstBreak(h, org, c, k, v);
    OneFirstBreak(h, org, d, k, w);
  }

  lemma SameStartSameBreak(h: Scheme, org: Option<Id>, c: seq<AuditEvent>, d: seq<AuditEvent>, k: nat)
    requires BreaksFirstAt(h, org, c, k) && k < |d| && d[..k + 1] == c[..k + 1]
    ensures BreaksFirstAt(h, org, d, k) && Broken(h, org, d, k) == Broken(h, org, c, k)
  {
    forall i | 0 <= i <= k ensures d[i] == c[i] {
      assert d[..k + 1][i] == c[..k + 1][i];
    }
    forall i | 0 <= i <= k ensures Fault(h, org, d, i) == Fault(h, org, c, i) {
      if i > 0 { assert d[i - 1] == c[i - 1]; }
    }
  }

  lemma OneFirstBreak(h: Scheme, org: Option<Id>, rows: seq<AuditEvent>, k: nat, v: Verification)
    requires BreaksFirstAt(h, org, rows, k) && Reports(h, org, rows, v)
    ensures v == Broken(h, org, rows, k)
  {
    var j :| BreaksFirstAt(h, org, rows, j) && v == Broken(h, org, rows, j);
    assert j == k;
  }
}

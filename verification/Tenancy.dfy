/** SQL's three-valued WHERE, as far as the policy scopes use it. */
module Sql {
  import opened Options

  datatype Truth = True | False | Unknown {
    function And(other: Truth): Truth {
      if False? || other.False? then False
      else if Unknown? || other.Unknown? then Unknown
      else True
    }

    function Or(other: Truth): Truth {
      if True? || other.True? then True
      else if Unknown? || other.Unknown? then Unknown
      else False
    }

    /** A row is selected only when its WHERE is TRUE; UNKNOWN drops it. */
    predicate Selects() {
      True?
    }
  }

  /** The connectives are those of SQL: commutative, with TRUE and FALSE as their units and zeros. */
  lemma Connectives(a: Truth, b: Truth)
    ensures a.And(b) == b.And(a) && a.Or(b) == b.Or(a)
    ensures True.And(a) == a && False.And(a) == False && True.Or(a) == True && False.Or(a) == a
    ensures a.And(a) == a.Or(a) == a
    ensures a.And(b).Selects() <==> a.Selects() && b.Selects()
    ensures a.Or(b).Selects() <==> a.Selects() || b.Selects()
  {
  }

  function Known(b: bool): Truth {
    if b then True else False
  }

  function Equals(column: Option<Id>, value: Id): Truth {
    match column
    case None => Unknown
    case Some(v) => Known(v == value)
  }

  function IsNull(column: Option<Id>): Truth {
    Known(column.None?)
  }

  /** `column IN (subquery)`: FALSE on an empty subquery, otherwise UNKNOWN on a NULL column. */
  function In(column: Option<Id>, ids: set<Id>): Truth {
    if ids == {} then False
    else match column
      case None => Unknown
      case Some(v) => Known(v in ids)
  }
}

/** The tenant boundary: every rule once as a per-record predicate and once as a filter. */
module Tenancy {
  import opened Options
  import opened Sql

  datatype User = User(organizationId: Option<Id>, areaOfOperationId: Option<Id>) {
    predicate ScopeRestricted() {
      organizationId.Some? || areaOfOperationId.Some?
    }

    /** The same user with only the organization restriction. */
    function OrganizationOnly(): User {
      User(organizationId, None)
    }

    /** The same user with only the area restriction. */
    function AreaOnly(): User {
      User(None, areaOfOperationId)
    }
  }

  datatype Area = Area(organizationId: Option<Id>)
  datatype Site = Site(organizationId: Option<Id>, areaOfOperationId: Option<Id>)
  datatype Task = Task(siteId: Id)
  datatype Asset = Asset(homeSiteId: Option<Id>)
  datatype Incident = Incident(siteId: Option<Id>, areaOfOperationId: Option<Id>)
  datatype SignalRuleMatch = SignalRuleMatch(siteId: Option<Id>, incidentId: Option<Id>, taskId: Option<Id>)
  datatype Recommendation = Recommendation(affectedEntityType: Option<string>, affectedEntityId: Option<Id>)

  datatype Database = Database(
    areas: map<Id, Area>,
    sites: map<Id, Site>,
    tasks: map<Id, Task>,
    assets: map<Id, Asset>,
    incidents: map<Id, Incident>,
    matches: map<Id, SignalRuleMatch>,
    recommendations: map<Id, Recommendation>)

  ghost predicate References<T>(column: Option<Id>, table: map<Id, T>) {
    column.Some? ==> column.value in table
  }

  /** The foreign keys. A recommendation's entity id is polymorphic and has none. */
  ghost predicate ForeignKeysHold(db: Database) {
    && (forall id <- db.sites :: References(db.sites[id].areaOfOperationId, db.areas))
    && (forall id <- db.tasks :: db.tasks[id].siteId in db.sites)
    && (forall id <- db.assets :: References(db.assets[id].homeSiteId, db.sites))
    && (forall id <- db.incidents ::
          && References(db.incidents[id].siteId, db.sites)
          && References(db.incidents[id].areaOfOperationId, db.areas))
    && (forall id <- db.matches ::
          && References(db.matches[id].siteId, db.sites)
          && References(db.matches[id].incidentId, db.incidents)
          && References(db.matches[id].taskId, db.tasks))
  }

  /** Following a belongs_to: nil when the column is NULL or the row is missing. */
  function Fetch<T>(table: map<Id, T>, column: Option<Id>): Option<T> {
    if column.Some? && column.value in table then Some(table[column.value]) else None
  }

  // ── Per-record predicates ──────────────────────────────────────────────────

  predicate SiteAccessible(u: User, site: Option<Site>) {
    if !u.ScopeRestricted() then true
    else if site.None? then false
    else if u.organizationId.Some? && site.value.organizationId != u.organizationId then false
    else if u.areaOfOperationId.Some? && site.value.areaOfOperationId != u.areaOfOperationId then false
    else true
  }

  predicate AreaAccessible(u: User, db: Database, areaId: Option<Id>, includeGlobal: bool) {
    if !u.ScopeRestricted() then true
    else if areaId.None? then false
    else if u.areaOfOperationId.Some? && areaId != u.areaOfOperationId then false
    else if u.organizationId.None? then true
    else
      && areaId.value in db.areas
      && OrganizationFilter(u, db.areas[areaId.value].organizationId, includeGlobal).Selects()
  }

  predicate IncidentAccessible(u: User, db: Database, incident: Incident) {
    var site := Fetch(db.sites, incident.siteId);
    if site.Some? then SiteAccessible(u, site)
    else AreaAccessible(u, db, incident.areaOfOperationId, false)
  }

  predicate MatchAccessible(u: User, db: Database, m: SignalRuleMatch) {
    var site := Fetch(db.sites, m.siteId);
    var incident := Fetch(db.incidents, m.incidentId);
    var task := Fetch(db.tasks, m.taskId);
    if site.Some? then SiteAccessible(u, site)
    else if incident.Some? then IncidentAccessible(u, db, incident.value)
    else if task.Some? then SiteAccessible(u, Fetch(db.sites, Some(task.value.siteId)))
    else !u.ScopeRestricted()
  }

  predicate RecommendationAccessible(u: User, db: Database, r: Recommendation) {
    if !u.ScopeRestricted() then true
    else
      match EntityKind(r.affectedEntityType)
      case None => false
      case Some(kind) => r.affectedEntityId.Some? && r.affectedEntityId.value in Resolve(u, db, kind)
  }

  // ── Scope filters ──────────────────────────────────────────────────────────

  /** `where(organization_id: o)`, or `where(organization_id: [o, nil])` on the area surface. */
  function OrganizationFilter(u: User, column: Option<Id>, includeGlobal: bool): Truth {
    if u.organizationId.None? then True
    else if includeGlobal then Equals(column, u.organizationId.value).Or(IsNull(column))
    else Equals(column, u.organizationId.value)
  }

  function AreaFilter(u: User, column: Option<Id>): Truth {
    if u.areaOfOperationId.None? then True else Equals(column, u.areaOfOperationId.value)
  }

  function SiteScope(u: User, db: Database): set<Id> {
    set id | id in db.sites &&
             OrganizationFilter(u, db.sites[id].organizationId, false)
             .And(AreaFilter(u, db.sites[id].areaOfOperationId)).Selects()
  }

  function AreaScope(u: User, db: Database, includeGlobal: bool): set<Id> {
    set id | id in db.areas &&
             OrganizationFilter(u, db.areas[id].organizationId, includeGlobal)
             .And(AreaFilter(u, Some(id))).Selects()
  }

  function TaskScope(u: User, db: Database): set<Id> {
    if !u.ScopeRestricted() then db.tasks.Keys
    else set id | id in db.tasks && In(Some(db.tasks[id].siteId), SiteScope(u, db)).Selects()
  }

  function AssetScope(u: User, db: Database): set<Id> {
    if !u.ScopeRestricted() then db.assets.Keys
    else set id | id in db.assets && In(db.assets[id].homeSiteId, SiteScope(u, db)).Selects()
  }

  function IncidentFilter(u: User, db: Database, i: Incident): Truth {
    In(i.siteId, SiteScope(u, db))
    .Or(IsNull(i.siteId).And(In(i.areaOfOperationId, AreaScope(u, db, false))))
  }

  function IncidentScope(u: User, db: Database): set<Id> {
    if !u.ScopeRestricted() then db.incidents.Keys
    else set id | id in db.incidents && IncidentFilter(u, db, db.incidents[id]).Selects()
  }

  function MatchFilter(u: User, db: Database, m: SignalRuleMatch): Truth {
    In(m.siteId, SiteScope(u, db))
    .Or(IsNull(m.siteId).And(In(m.incidentId, IncidentScope(u, db))))
    .Or(IsNull(m.siteId).And(IsNull(m.incidentId)).And(In(m.taskId, TaskScope(u, db))))
  }

  function MatchScope(u: User, db: Database): set<Id> {
    if !u.ScopeRestricted() then db.matches.Keys
    else set id | id in db.matches && MatchFilter(u, db, db.matches[id]).Selects()
  }

  /** The record types a recommendation can affect, in the order of the policy's case. */
  datatype Kind = Assets | Incidents | Matches | Sites | Tasks

  const KINDS := [Assets, Incidents, Matches, Sites, Tasks]

  function KindName(kind: Kind): string {
    match kind
    case Assets => "Asset"
    case Incidents => "Incident"
    case Matches => "SignalRuleMatch"
    case Sites => "Site"
    case Tasks => "Task"
  }

  function EntityKind(entityType: Option<string>): Option<Kind> {
    match entityType
    case None => None
    case Some(t) =>
      if t == "Asset" then Some(Assets)
      else if t == "Incident" then Some(Incidents)
      else if t == "SignalRuleMatch" then Some(Matches)
      else if t == "Site" then Some(Sites)
      else if t == "Task" then Some(Tasks)
      else None
  }

  function Resolve(u: User, db: Database, kind: Kind): set<Id> {
    match kind
    case Assets => AssetScope(u, db)
    case Incidents => IncidentScope(u, db)
    case Matches => MatchScope(u, db)
    case Sites => SiteScope(u, db)
    case Tasks => TaskScope(u, db)
  }

  /** One `where(affected_entity_type: t, affected_entity_id: subquery)` of the reduced `or`. */
  function RecommendationDisjunct(u: User, db: Database, r: Recommendation, kind: Kind): Truth {
    var typeMatches := match r.affectedEntityType case None => Unknown case Some(t) => Known(t == KindName(kind));
    typeMatches.And(In(r.affectedEntityId, Resolve(u, db, kind)))
  }

  function AnyOf(u: User, db: Database, r: Recommendation, kinds: seq<Kind>): Truth
    requires kinds != []
  {
    if |kinds| == 1 then RecommendationDisjunct(u, db, r, kinds[0])
    else AnyOf(u, db, r, kinds[..|kinds| - 1]).Or(RecommendationDisjunct(u, db, r, kinds[|kinds| - 1]))
  }

  function RecommendationScope(u: User, db: Database): set<Id> {
    if !u.ScopeRestricted() then db.recommendations.Keys
    else set id | id in db.recommendations && AnyOf(u, db, db.recommendations[id], KINDS).Selects()
  }

  // ── The reference: where a record is anchored ──────────────────────────────

  /** The organization and area a record inherits from the place it hangs on. */
  datatype Anchor = Anchor(organizationId: Option<Id>, areaOfOperationId: Option<Id>)

  function SiteAnchor(s: Site): Anchor {
    Anchor(s.organizationId, s.areaOfOperationId)
  }

  function AnchorAtSite(db: Database, siteId: Option<Id>): Option<Anchor> {
    match Fetch(db.sites, siteId)
    case None => None
    case Some(s) => Some(SiteAnchor(s))
  }

  function AnchorAtArea(db: Database, areaId: Option<Id>): Option<Anchor> {
    match Fetch(db.areas, areaId)
    case None => None
    case Some(a) => Some(Anchor(a.organizationId, areaId))
  }

  function IncidentAnchor(db: Database, i: Incident): Option<Anchor> {
    if i.siteId.Some? then AnchorAtSite(db, i.siteId) else AnchorAtArea(db, i.areaOfOperationId)
  }

  /** Site first, then the incident, then the task: an incident hides the task behind it. */
  function MatchAnchor(db: Database, m: SignalRuleMatch): Option<Anchor> {
    if m.siteId.Some? then AnchorAtSite(db, m.siteId)
    else if m.incidentId.Some? then
      match Fetch(db.incidents, m.incidentId)
      case None => None
      case Some(i) => IncidentAnchor(db, i)
    else
      match Fetch(db.tasks, m.taskId)
      case None => None
      case Some(t) => AnchorAtSite(db, Some(t.siteId))
  }

  function AnchorOf(db: Database, kind: Kind, id: Id): Option<Anchor> {
    match kind
    case Sites => AnchorAtSite(db, Some(id))
    case Tasks => (match Fetch(db.tasks, Some(id)) case None => None case Some(t) => AnchorAtSite(db, Some(t.siteId)))
    case Assets => (match Fetch(db.assets, Some(id)) case None => None case Some(a) => AnchorAtSite(db, a.homeSiteId))
    case Incidents => (match Fetch(db.incidents, Some(id)) case None => None case Some(i) => IncidentAnchor(db, i))
    case Matches => (match Fetch(db.matches, Some(id)) case None => None case Some(m) => MatchAnchor(db, m))
  }

  function RecommendationAnchor(db: Database, r: Recommendation): Option<Anchor> {
    match EntityKind(r.affectedEntityType)
    case None => None
    case Some(kind) => if r.affectedEntityId.None? then None else AnchorOf(db, kind, r.affectedEntityId.value)
  }

  predicate Covers(u: User, a: Anchor) {
    && (u.organizationId.Some? ==> a.organizationId == u.organizationId)
    && (u.areaOfOperationId.Some? ==> a.areaOfOperationId == u.areaOfOperationId)
  }

  predicate Visible(u: User, anchor: Option<Anchor>) {
    !u.ScopeRestricted() || (anchor.Some? && Covers(u, anchor.value))
  }

  function Table(db: Database, kind: Kind): set<Id> {
    match kind
    case Assets => db.assets.Keys
    case Incidents => db.incidents.Keys
    case Matches => db.matches.Keys
    case Sites => db.sites.Keys
    case Tasks => db.tasks.Keys
  }

  /** `show?` of the record's own policy. */
  predicate Show(u: User, db: Database, kind: Kind, id: Id)
    requires id in Table(db, kind)
  {
    match kind
    case Assets => SiteAccessible(u, Fetch(db.sites, db.assets[id].homeSiteId))
    case Incidents => IncidentAccessible(u, db, db.incidents[id])
    case Matches => MatchAccessible(u, db, db.matches[id])
    case Sites => SiteAccessible(u, Some(db.sites[id]))
    case Tasks => SiteAccessible(u, Fetch(db.sites, Some(db.tasks[id].siteId)))
  }
}

/** Both copies of every tenancy rule agree with one reference: the anchor of the record. */
module TenancyTheorems {
  import opened Options
  import opened Sql
  import opened Tenancy

  lemma SiteScopeIsAnchored(u: User, db: Database, siteId: Option<Id>)
    requires u.ScopeRestricted()
    ensures In(siteId, SiteScope(u, db)).Selects() <==> Visible(u, AnchorAtSite(db, siteId))
  {
    if siteId.Some? {
      assert siteId.value in SiteScope(u, db) <==>
             siteId.value in db.sites && Covers(u, SiteAnchor(db.sites[siteId.value]));
    }
  }

  lemma AreaScopeIsAnchored(u: User, db: Database, areaId: Option<Id>)
    requires u.ScopeRestricted()
    ensures In(areaId, AreaScope(u, db, false)).Selects() <==> Visible(u, AnchorAtArea(db, areaId))
  {
    if areaId.Some? {
      assert areaId.value in AreaScope(u, db, false) <==>
             areaId.value in db.areas && Covers(u, Anchor(db.areas[areaId.value].organizationId, areaId));
    }
  }

  lemma IncidentFilterIsAnchored(u: User, db: Database, i: Incident)
    requires u.ScopeRestricted()
    ensures IncidentFilter(u, db, i).Selects() <==> Visible(u, IncidentAnchor(db, i))
  {
    SiteScopeIsAnchored(u, db, i.siteId);
    AreaScopeIsAnchored(u, db, i.areaOfOperationId);
  }

  lemma MatchFilterIsAnchored(u: User, db: Database, m: SignalRuleMatch)
    requires u.ScopeRestricted()
    ensures MatchFilter(u, db, m).Selects() <==> Visible(u, MatchAnchor(db, m))
  {
    SiteScopeIsAnchored(u, db, m.siteId);
    match Fetch(db.incidents, m.incidentId) {
      case Some(i) => IncidentFilterIsAnchored(u, db, i);
      case None =>
    }
    match Fetch(db.tasks, m.taskId) {
      case Some(t) => SiteScopeIsAnchored(u, db, Some(t.siteId));
      case None =>
    }
  }

  /** `Scope#resolve` selects exactly the rows whose anchor the user covers. */
  lemma ResolveIsAnchored(u: User, db: Database, kind: Kind, id: Id)
    ensures id in Resolve(u, db, kind) <==> id in Table(db, kind) && Visible(u, AnchorOf(db, kind, id))
  {
    if u.ScopeRestricted() && id in Table(db, kind) {
      match kind
      case Sites => SiteScopeIsAnchored(u, db, Some(id));
      case Tasks => SiteScopeIsAnchored(u, db, Some(db.tasks[id].siteId));
      case Assets => SiteScopeIsAnchored(u, db, db.assets[id].homeSiteId);
      case Incidents => IncidentFilterIsAnchored(u, db, db.incidents[id]);
      case Matches => MatchFilterIsAnchored(u, db, db.matches[id]);
    }
  }

  lemma IncidentAccessIsAnchored(u: User, db: Database, i: Incident)
    requires References(i.siteId, db.sites) && References(i.areaOfOperationId, db.areas)
    ensures IncidentAccessible(u, db, i) <==> Visible(u, IncidentAnchor(db, i))
  {
  }

  lemma MatchAccessIsAnchored(u: User, db: Database, m: SignalRuleMatch)
    requires ForeignKeysHold(db)
    requires References(m.siteId, db.sites) && References(m.incidentId, db.incidents) && References(m.taskId, db.tasks)
    ensures MatchAccessible(u, db, m) <==> Visible(u, MatchAnchor(db, m))
  {
    if m.siteId.None? && m.incidentId.Some? {
      IncidentAccessIsAnchored(u, db, db.incidents[m.incidentId.value]);
    }
  }

  /** `show?` and `Scope#resolve` are the same rule, for every record of every kind. */
  lemma ShowAgreesWithScope(u: User, db: Database, kind: Kind, id: Id)
    requires ForeignKeysHold(db) && id in Table(db, kind)
    ensures Show(u, db, kind, id) <==> id in Resolve(u, db, kind)
    ensures Show(u, db, kind, id) <==> Visible(u, AnchorOf(db, kind, id))
  {
    ResolveIsAnchored(u, db, kind, id);
    match kind
    case Sites =>
    case Tasks =>
    case Assets =>
    case Incidents => IncidentAccessIsAnchored(u, db, db.incidents[id]);
    case Matches => MatchAccessIsAnchored(u, db, db.matches[id]);
  }

  lemma RecommendationDisjunctSelects(u: User, db: Database, r: Recommendation, kind: Kind)
    ensures RecommendationDisjunct(u, db, r, kind).Selects() <==>
            EntityKind(r.affectedEntityType) == Some(kind)
            && r.affectedEntityId.Some? && r.affectedEntityId.value in Resolve(u, db, kind)
  {
  }

  lemma {:induction false} AnyOfSelects(u: User, db: Database, r: Recommendation, kinds: seq<Kind>)
    requires kinds != []
    ensures AnyOf(u, db, r, kinds).Selects() <==>
            exists k <- kinds :: RecommendationDisjunct(u, db, r, k).Selects()
  {
    var n := |kinds| - 1;
    if n == 0 {
      assert kinds == [kinds[0]];
    } else {
      AnyOfSelects(u, db, r, kinds[..n]);
      assert kinds == kinds[..n] + [kinds[n]];
    }
  }

  /** A recommendation is visible exactly when its type is a scoped one and its entity exists and is visible. */
  lemma RecommendationVisibility(u: User, db: Database, id: Id)
    requires u.ScopeRestricted() && id in db.recommendations
    ensures var r := db.recommendations[id];
            var seen := exists k :: EntityKind(r.affectedEntityType) == Some(k) && r.affectedEntityId.Some?
                                    && r.affectedEntityId.value in Table(db, k)
                                    && Visible(u, RecommendationAnchor(db, r));
            && (id in RecommendationScope(u, db) <==> seen)
            && (RecommendationAccessible(u, db, r) <==> seen)
  {
    var r := db.recommendations[id];
    AnyOfSelects(u, db, r, KINDS);
    forall k ensures k in KINDS && (RecommendationDisjunct(u, db, r, k).Selects() <==>
                       EntityKind(r.affectedEntityType) == Some(k)
                       && r.affectedEntityId.Some? && r.affectedEntityId.value in Resolve(u, db, k)) {
      RecommendationDisjunctSelects(u, db, r, k);
      assert k == KINDS[match k case Assets => 0 case Incidents => 1 case Matches => 2 case Sites => 3 case Tasks => 4];
    }
    if EntityKind(r.affectedEntityType).Some? && r.affectedEntityId.Some? {
      ResolveIsAnchored(u, db, EntityKind(r.affectedEntityType).value, r.affectedEntityId.value);
    }
  }

  lemma RecommendationShowAgreesWithScope(u: User, db: Database, id: Id)
    requires id in db.recommendations
    ensures RecommendationAccessible(u, db, db.recommendations[id]) <==> id in RecommendationScope(u, db)
  {
    if u.ScopeRestricted() {
      RecommendationVisibility(u, db, id);
    }
  }

  /** On the area surface and for owned doctrine alike, the record check is the filter. */
  lemma AreaShowAgreesWithScope(u: User, db: Database, id: Id, includeGlobal: bool)
    requires id in db.areas
    ensures AreaAccessible(u, db, Some(id), includeGlobal) <==> id in AreaScope(u, db, includeGlobal)
  {
  }

  // ── Composition and isolation ──────────────────────────────────────────────

  /** An organization-and-area user sees the intersection of what the two restrictions show alone. */
  lemma RestrictionsIntersect(u: User, db: Database, kind: Kind)
    ensures Resolve(u, db, kind) == Resolve(u.OrganizationOnly(), db, kind) * Resolve(u.AreaOnly(), db, kind)
  {
    var o, a := u.OrganizationOnly(), u.AreaOnly();
    forall id ensures id in Resolve(u, db, kind) <==> id in Resolve(o, db, kind) && id in Resolve(a, db, kind) {
      ResolveIsAnchored(u, db, kind, id);
      ResolveIsAnchored(o, db, kind, id);
      ResolveIsAnchored(a, db, kind, id);
    }
  }

  lemma AreaRestrictionsIntersect(u: User, db: Database, includeGlobal: bool)
    ensures AreaScope(u, db, includeGlobal) ==
            AreaScope(u.OrganizationOnly(), db, includeGlobal) * AreaScope(u.AreaOnly(), db, includeGlobal)
  {
  }

  lemma RecommendationIsResolved(u: User, db: Database, id: Id)
    requires u.ScopeRestricted() && id in db.recommendations
    ensures var r := db.recommendations[id];
            id in RecommendationScope(u, db) <==>
            EntityKind(r.affectedEntityType).Some? && r.affectedEntityId.Some?
            && r.affectedEntityId.value in Resolve(u, db, EntityKind(r.affectedEntityType).value)
  {
    RecommendationShowAgreesWithScope(u, db, id);
  }

  /** Type by type: which records a recommendation's visibility rests on. */
  lemma RecommendationByType(u: User, db: Database, id: Id)
    requires u.ScopeRestricted() && id in db.recommendations
    ensures var t, entity := db.recommendations[id].affectedEntityType, db.recommendations[id].affectedEntityId;
            id in RecommendationScope(u, db) <==>
            && entity.Some?
            && (|| (t == Some("Asset") && entity.value in AssetScope(u, db))
                || (t == Some("Incident") && entity.value in IncidentScope(u, db))
                || (t == Some("SignalRuleMatch") && entity.value in MatchScope(u, db))
                || (t == Some("Site") && entity.value in SiteScope(u, db))
                || (t == Some("Task") && entity.value in TaskScope(u, db)))
  {
    RecommendationIsResolved(u, db, id);
    NamesDiffer();
  }

  lemma NamesDiffer()
    ensures |"Asset"| == 5 && |"Incident"| == 8 && |"SignalRuleMatch"| == 15 && |"Site"| == 4 && |"Task"| == 4
    ensures "Site"[0] != "Task"[0]
  {
  }

  lemma RecommendationRestrictionsIntersect(u: User, db: Database)
    ensures RecommendationScope(u, db) ==
            RecommendationScope(u.OrganizationOnly(), db) * RecommendationScope(u.AreaOnly(), db)
  {
    var o, a := u.OrganizationOnly(), u.AreaOnly();
    forall id | id in db.recommendations
      ensures id in RecommendationScope(u, db) <==> id in RecommendationScope(o, db) && id in RecommendationScope(a, db)
    {
      var r := db.recommendations[id];
      if o.ScopeRestricted() { RecommendationIsResolved(o, db, id); }
      if a.ScopeRestricted() { RecommendationIsResolved(a, db, id); }
      if u.ScopeRestricted() {
        RecommendationIsResolved(u, db, id);
        if EntityKind(r.affectedEntityType).Some? {
          RestrictionsIntersect(u, db, EntityKind(r.affectedEntityType).value);
        }
      }
    }
  }

  ghost predicate DifferentTenants(u: User, v: User) {
    u.organizationId.Some? && v.organizationId.Some? && u.organizationId != v.organizationId
  }

  /** No operational record is ever shown to two organizations. */
  lemma TenantsAreIsolated(u: User, v: User, db: Database, kind: Kind)
    requires DifferentTenants(u, v)
    ensures Resolve(u, db, kind) !! Resolve(v, db, kind)
  {
    forall id ensures !(id in Resolve(u, db, kind) && id in Resolve(v, db, kind)) {
      ResolveIsAnchored(u, db, kind, id);
      ResolveIsAnchored(v, db, kind, id);
    }
  }

  lemma RecommendationsAreIsolated(u: User, v: User, db: Database)
    requires DifferentTenants(u, v)
    ensures RecommendationScope(u, db) !! RecommendationScope(v, db)
  {
    forall id | id in db.recommendations
      ensures !(id in RecommendationScope(u, db) && id in RecommendationScope(v, db))
    {
      RecommendationIsResolved(u, db, id);
      RecommendationIsResolved(v, db, id);
      var kind := EntityKind(db.recommendations[id].affectedEntityType);
      if kind.Some? {
        TenantsAreIsolated(u, v, db, kind.value);
      }
    }
  }

  /** Owned areas are disjoint; area surfaces meet exactly in the unpinned-or-commonly-pinned global areas. */
  lemma AreasAreIsolated(u: User, v: User, db: Database)
    requires DifferentTenants(u, v)
    ensures AreaScope(u, db, false) !! AreaScope(v, db, false)
    ensures forall id :: id in AreaScope(u, db, true) * AreaScope(v, db, true) <==>
                         && id in db.areas && db.areas[id].organizationId.None?
                         && u.areaOfOperationId in {None, Some(id)} && v.areaOfOperationId in {None, Some(id)}
  {
  }

  /** What a user may read on the surface but not own is exactly the global areas in reach. */
  lemma SurfaceExceedsOwnedByGlobals(u: User, db: Database)
    requires u.organizationId.Some?
    ensures AreaScope(u, db, false) <= AreaScope(u, db, true)
    ensures forall id :: id in AreaScope(u, db, true) - AreaScope(u, db, false) <==>
                         id in db.areas && db.areas[id].organizationId.None? && u.areaOfOperationId in {None, Some(id)}
  {
  }

  /** A match whose incident is out of reach stays hidden even when its task is in reach. */
  lemma IncidentHidesTask(u: User, db: Database, id: Id)
    requires ForeignKeysHold(db) && id in db.matches
    requires db.matches[id].siteId.None? && db.matches[id].incidentId.Some?
    ensures id in MatchScope(u, db) <==> db.matches[id].incidentId.value in IncidentScope(u, db)
  {
    ResolveIsAnchored(u, db, Matches, id);
    ResolveIsAnchored(u, db, Incidents, db.matches[id].incidentId.value);
  }
}

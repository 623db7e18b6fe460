/** Saving sites and users: how a site's organization follows its area of operation. */
module SiteOrganization {
  import opened Options
  import opened Tenancy

  const MUST_BELONG := "must belong to the same organization"

  /** The tables a save reads and writes; `organizations` holds the existing organization ids. */
  datatype Tables = Tables(
    organizations: set<Id>,
    areas: map<Id, Area>,
    sites: map<Id, Site>,
    users: map<Id, User>)

  /** The organization of the record's area, nil when there is no area or it has none. */
  function AreaOrganization(areas: map<Id, Area>, areaId: Option<Id>): Option<Id> {
    match Fetch(areas, areaId)
    case None => None
    case Some(area) => area.organizationId
  }

  /** The before_validation callback of Site. */
  function Synced(areas: map<Id, Area>, s: Site): Site {
    if s.organizationId.Some? then s else Site(AreaOrganization(areas, s.areaOfOperationId), s.areaOfOperationId)
  }

  /** The validation shared by Site and User: an organization and an area's organization must agree. */
  predicate Agrees(t: Tables, organizationId: Option<Id>, areaId: Option<Id>) {
    var inherited := AreaOrganization(t.areas, areaId);
    || inherited.None?
    || organizationId.None? || organizationId.value !in t.organizations
    || inherited == organizationId
  }

  /** The foreign keys on organization_id and area_of_operation_id. */
  predicate KeysExist(t: Tables, organizationId: Option<Id>, areaId: Option<Id>) {
    && (organizationId.Some? ==> organizationId.value in t.organizations)
    && (areaId.Some? ==> areaId.value in t.areas)
  }

  /** A Site object being saved: the callback assigns, the validation appends to `errors`. */
  class SiteRecord {
    var organizationId: Option<Id>
    var areaOfOperationId: Option<Id>
    var errors: seq<string>

    constructor (attributes: Site)
      ensures Attributes() == attributes && errors == []
    {
      organizationId := attributes.organizationId;
      areaOfOperationId := attributes.areaOfOperationId;
      errors := [];
    }

    function Attributes(): Site
      reads this
    {
      Site(organizationId, areaOfOperationId)
    }

    method SyncOrganizationFromArea(areas: map<Id, Area>)
      modifies this`organizationId
      ensures Attributes() == Synced(areas, old(Attributes()))
      ensures old(organizationId).Some? ==> organizationId == old(organizationId)
      ensures old(organizationId).None? ==>
                organizationId == if areaOfOperationId.Some? && areaOfOperationId.value in areas
                                  then areas[areaOfOperationId.value].organizationId else None
    {
      var area := Fetch(areas, areaOfOperationId);
      if area.None? { return; }
      if area.value.organizationId.None? { return; }
      if organizationId.Some? { return; }
      organizationId := area.value.organizationId;
    }

    method AreaMatchesOrganization(t: Tables)
      modifies this`errors
      ensures errors == old(errors) +
                        (if Agrees(t, organizationId, areaOfOperationId) then [] else [MUST_BELONG])
    {
      var area := Fetch(t.areas, areaOfOperationId);
      if area.None? || organizationId.None? || organizationId.value !in t.organizations { return; }
      if area.value.organizationId.None? || area.value.organizationId == organizationId { return; }
      errors := errors + [MUST_BELONG];
    }

    /** Callback, validation, then the write, which the foreign keys can still refuse. */
    method Save(t: Tables, id: Id) returns (saved: bool, after: Tables)
      modifies this
      ensures Attributes() == Synced(t.areas, old(Attributes()))
      ensures errors == [] <==> Agrees(t, organizationId, areaOfOperationId)
      ensures saved <==> errors == [] && KeysExist(t, organizationId, areaOfOperationId)
      ensures after == SaveSite(t, id, old(Attributes()))
      ensures errors == [] || errors == ["must belong to the same organization"]
      ensures Clashes(t, old(Attributes())) ==> errors == ["must belong to the same organization"]
      ensures old(organizationId).Some? ==> Attributes() == old(Attributes())
    {
      errors := [];
      SyncOrganizationFromArea(t.areas);
      AreaMatchesOrganization(t);
      saved := errors == [] && KeysExist(t, organizationId, areaOfOperationId);
      after := if saved then t.(sites := t.sites[id := Attributes()]) else t;
    }
  }

  function SaveSite(t: Tables, id: Id, attributes: Site): Tables {
    var s := Synced(t.areas, attributes);
    if Agrees(t, s.organizationId, s.areaOfOperationId) && KeysExist(t, s.organizationId, s.areaOfOperationId)
    then t.(sites := t.sites[id := s])
    else t
  }

  /** The site names one existing organization and an area of another. */
  predicate Clashes(t: Tables, s: Site) {
    && s.organizationId.Some? && s.organizationId.value in t.organizations
    && s.areaOfOperationId.Some? && s.areaOfOperationId.value in t.areas
    && t.areas[s.areaOfOperationId.value].organizationId.Some?
    && t.areas[s.areaOfOperationId.value].organizationId != s.organizationId
  }

  predicate NamesExist(t: Tables, organizationId: Option<Id>, areaId: Option<Id>) {
    && (organizationId.Some? ==> organizationId.value in t.organizations)
    && (areaId.Some? ==> areaId.value in t.areas)
  }

  /** A site with an organization is stored as it is, or, when that clashes or a key is missing, not at all. */
  lemma GivenOrganizationIsKept(t: Tables, id: Id, s: Site)
    requires s.organizationId.Some?
    ensures SaveSite(t, id, s) ==
            if Clashes(t, s) || !NamesExist(t, s.organizationId, s.areaOfOperationId) then t
            else t.(sites := t.sites[id := s])
  {
  }

  /** A site without an organization is stored with that of its area, if its area exists. */
  lemma MissingOrganizationIsTheAreas(t: Tables, id: Id, areaId: Option<Id>)
    requires forall a <- t.areas :: NamesExist(t, t.areas[a].organizationId, None)
    ensures SaveSite(t, id, Site(None, areaId)) ==
            if areaId.None? then t.(sites := t.sites[id := Site(None, None)])
            else if areaId.value !in t.areas then t
            else t.(sites := t.sites[id := Site(t.areas[areaId.value].organizationId, areaId)])
  {
    if areaId.Some? && areaId.value in t.areas {
      assert NamesExist(t, t.areas[areaId.value].organizationId, None);
    }
  }

  /** A user is stored as it is, or, when organization and area clash or a key is missing, not at all. */
  lemma UserIsSavedIff(t: Tables, id: Id, u: User)
    ensures SaveUser(t, id, u) ==
            if Clashes(t, Site(u.organizationId, u.areaOfOperationId))
               || !NamesExist(t, u.organizationId, u.areaOfOperationId) then t
            else t.(users := t.users[id := u])
  {
  }

  function SaveUser(t: Tables, id: Id, u: User): Tables {
    if Agrees(t, u.organizationId, u.areaOfOperationId) && KeysExist(t, u.organizationId, u.areaOfOperationId)
    then t.(users := t.users[id := u])
    else t
  }

  /** An area has a creator, and a creator with an organization only creates areas of that one. */
  predicate AreaIsValid(t: Tables, area: Area, createdBy: Id) {
    && createdBy in t.users
    && (|| area.organizationId.None? || area.organizationId.value !in t.organizations
        || t.users[createdBy].organizationId.None?
        || t.users[createdBy].organizationId == area.organizationId)
  }

  function SaveArea(t: Tables, id: Id, area: Area, createdBy: Id): Tables {
    if AreaIsValid(t, area, createdBy) && KeysExist(t, area.organizationId, None)
    then t.(areas := t.areas[id := area])
    else t
  }

  /** Who may save an area: a creator without an organization any, one with an organization only its own or a global. */
  lemma AreaIsSavedIff(t: Tables, id: Id, area: Area, createdBy: Id)
    ensures SaveArea(t, id, area, createdBy) ==
            if createdBy in t.users
               && (area.organizationId.None?
                   || (area.organizationId.value in t.organizations
                       && t.users[createdBy].organizationId in {None, area.organizationId}))
            then t.(areas := t.areas[id := area])
            else t
  {
  }

  /** Destroying an area nullifies the column of its sites and users. */
  function DestroyArea(t: Tables, id: Id): Tables {
    t.(areas := t.areas - {id},
       sites := map s | s in t.sites ::
         (if t.sites[s].areaOfOperationId == Some(id) then Site(t.sites[s].organizationId, None) else t.sites[s]),
       users := map u | u in t.users ::
         (if t.users[u].areaOfOperationId == Some(id) then User(t.users[u].organizationId, None) else t.users[u]))
  }

  /** Destroying an area takes it out and frees its sites and users, which keep their organizations. */
  lemma AreaIsDestroyed(t: Tables, id: Id, s: Id, u: Id)
    requires s in t.sites && u in t.users
    ensures var after := DestroyArea(t, id);
            && after.areas == t.areas - {id} && after.organizations == t.organizations
            && after.sites.Keys == t.sites.Keys && after.users.Keys == t.users.Keys
            && after.sites[s].organizationId == t.sites[s].organizationId
            && after.users[u].organizationId == t.users[u].organizationId
            && (t.sites[s].areaOfOperationId == Some(id) ==> after.sites[s].areaOfOperationId == None)
            && (t.sites[s].areaOfOperationId != Some(id) ==> after.sites[s] == t.sites[s])
            && (t.users[u].areaOfOperationId == Some(id) ==> after.users[u].areaOfOperationId == None)
            && (t.users[u].areaOfOperationId != Some(id) ==> after.users[u] == t.users[u])
  {
  }

  datatype Step =
    | SavesSite(id: Id, site: Site)
    | SavesUser(id: Id, user: User)
    | SavesArea(id: Id, area: Area, createdBy: Id)
    | DestroysArea(id: Id)

  function Apply(t: Tables, step: Step): Tables {
    match step
    case SavesSite(id, site) => SaveSite(t, id, site)
    case SavesUser(id, user) => SaveUser(t, id, user)
    case SavesArea(id, area, createdBy) => SaveArea(t, id, area, createdBy)
    case DestroysArea(id) => DestroyArea(t, id)
  }

  function Run(t: Tables, steps: seq<Step>): Tables
    decreases steps
  {
    if steps == [] then t else Run(Apply(t, steps[0]), steps[1..])
  }

  /** Every row's keys exist, a site has its area's organization, and so has a user with an organization. */
  ghost predicate Consistent(t: Tables) {
    && (forall a <- t.areas :: KeysExist(t, t.areas[a].organizationId, None))
    && (forall s <- t.sites :: KeysExist(t, t.sites[s].organizationId, t.sites[s].areaOfOperationId)
                               && SiteFollows(t, t.sites[s]))
    && (forall u <- t.users :: KeysExist(t, t.users[u].organizationId, t.users[u].areaOfOperationId)
                               && Agrees(t, t.users[u].organizationId, t.users[u].areaOfOperationId))
  }

  predicate SiteFollows(t: Tables, s: Site) {
    var inherited := AreaOrganization(t.areas, s.areaOfOperationId);
    inherited.Some? ==> s.organizationId == inherited
  }

  /** An area save that leaves an existing area's organization as it was. */
  predicate KeepsAreaOrganization(t: Tables, step: Step) {
    step.SavesArea? && step.id in t.areas ==> t.areas[step.id].organizationId == step.area.organizationId
  }

  ghost predicate AreasFixed(t: Tables, steps: seq<Step>)
    decreases steps
  {
    steps != [] ==> KeepsAreaOrganization(t, steps[0]) && AreasFixed(Apply(t, steps[0]), steps[1..])
  }

  lemma SaveSiteKeepsConsistent(t: Tables, id: Id, site: Site)
    requires Consistent(t)
    ensures Consistent(SaveSite(t, id, site))
  {
    var s := Synced(t.areas, site);
    var after := SaveSite(t, id, site);
    if after != t {
      assert SiteFollows(t, s);
    }
    forall x | x in after.sites ensures SiteFollows(after, after.sites[x]) {
      assert (x in t.sites && after.sites[x] == t.sites[x]) || after.sites[x] == s;
    }
  }

  lemma DestroyAreaKeepsConsistent(t: Tables, id: Id)
    requires Consistent(t)
    ensures Consistent(DestroyArea(t, id))
  {
  }

  lemma StepKeepsConsistent(t: Tables, step: Step)
    requires Consistent(t) && KeepsAreaOrganization(t, step)
    ensures Consistent(Apply(t, step))
  {
    match step
    case SavesSite(id, site) => SaveSiteKeepsConsistent(t, id, site);
    case SavesUser(id, user) =>
    case SavesArea(id, area, createdBy) =>
    case DestroysArea(id) => DestroyAreaKeepsConsistent(t, id);
  }

  /** While area organizations stay fixed, every run of saves keeps each site in its area's organization. */
  lemma {:induction false} RunKeepsConsistent(t: Tables, steps: seq<Step>)
    requires Consistent(t) && AreasFixed(t, steps)
    ensures Consistent(Run(t, steps))
    decreases steps
  {
    if steps == [] {
    } else {
      StepKeepsConsistent(t, steps[0]);
      RunKeepsConsistent(Apply(t, steps[0]), steps[1..]);
    }
  }

  /** Every site of the area, and every user of it with an organization, is in this organization. */
  ghost predicate MembersAgree(t: Tables, id: Id, organizationId: Option<Id>) {
    && (forall s <- t.sites :: t.sites[s].areaOfOperationId == Some(id) ==> t.sites[s].organizationId == organizationId)
    && (forall u <- t.users :: t.users[u].areaOfOperationId == Some(id) ==>
          t.users[u].organizationId in {None, organizationId})
  }

  /** Exactly which save of an area breaks the rule: its validation looks at the creator, not at sites and users. */
  lemma AreaSaveKeepsConsistentIff(t: Tables, id: Id, area: Area, createdBy: Id)
    requires Consistent(t)
    ensures Consistent(SaveArea(t, id, area, createdBy)) <==>
            || !AreaIsValid(t, area, createdBy) || !KeysExist(t, area.organizationId, None)
            || area.organizationId.None? || MembersAgree(t, id, area.organizationId)
  {
    var after := t.(areas := t.areas[id := area]);
    forall s | s in t.sites
      ensures SiteFollows(after, t.sites[s]) <==>
              (area.organizationId.Some? && t.sites[s].areaOfOperationId == Some(id) ==>
                t.sites[s].organizationId == area.organizationId)
    {
    }
    forall u | u in t.users
      ensures Agrees(after, t.users[u].organizationId, t.users[u].areaOfOperationId) <==>
              (area.organizationId.Some? && t.users[u].areaOfOperationId == Some(id) ==>
                t.users[u].organizationId in {None, area.organizationId})
    {
    }
  }

  /** A creator without an organization can move an area, and leave its site behind. */
  lemma UnscopedCreatorBreaks()
    ensures var t := Tables({1, 2}, map[5 := Area(Some(1))], map[7 := Site(Some(1), Some(5))],
                            map[9 := User(None, None)]);
            Consistent(t) && !Consistent(Run(t, [SavesArea(5, Area(Some(2)), 9)]))
  {
    var t := Tables({1, 2}, map[5 := Area(Some(1))], map[7 := Site(Some(1), Some(5))], map[9 := User(None, None)]);
    var step := SavesArea(5, Area(Some(2)), 9);
    assert Run(t, [step]) == Run(Apply(t, step), []) == SaveArea(t, 5, Area(Some(2)), 9);
    AreaSaveKeepsConsistentIff(t, 5, Area(Some(2)), 9);
    assert t.sites[7].areaOfOperationId == Some(5) && t.sites[7].organizationId != Some(2);
  }

  /** For a saved user pinned to an area with an organization, the organization filter selects nothing less. */
  lemma PinnedUserNeedsNoOrganizationFilter(t: Tables, db: Database, id: Id)
    requires Consistent(t) && id in t.users && db.sites == t.sites
    requires t.users[id].organizationId.Some?
    requires AreaOrganization(t.areas, t.users[id].areaOfOperationId).Some?
    ensures SiteScope(t.users[id], db) == SiteScope(t.users[id].AreaOnly(), db)
  {
    var u := t.users[id];
    forall s | s in t.sites && t.sites[s].areaOfOperationId == u.areaOfOperationId
      ensures t.sites[s].organizationId == u.organizationId
    {
      assert SiteFollows(t, t.sites[s]);
    }
  }
}

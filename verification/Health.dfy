/** `health_service` over the modelled store. */
module Health {
  import opened Text
  import opened Records
  import opened StoreInvariant
  import opened PortalMachine
  import opened PortalSafety

  datatype Level = Healthy | Degraded | SetupNeeded | Unavailable | Unknown

  datatype Reason =
    | AllClear
    | StorageUnavailable
    | NeedsSetup
    | IdentityDegraded
    | CatalogDegraded
    | AuditUnavailable
    | InstallationDegraded
    | InstallationUnavailable
    | CatalogUnknown
    | OtherUnknown

  /** Key order of the checks: storage, installation, identity, catalogue, audit. */
  datatype Indicator = Indicator(level: Level, reason: Reason)

  datatype Readiness = Readiness(level: Level, reason: Reason)

  const CLEAR := Indicator(Healthy, AllClear)

  function InstallationIndicator(db: Db): Indicator {
    if db.users == map[] && (db.installation.None? || !db.installation.value.initialized)
    then Indicator(SetupNeeded, NeedsSetup)
    else CLEAR
  }

  ghost function IdentityIndicator(db: Db, installation: Level): Indicator {
    if installation == SetupNeeded then Indicator(SetupNeeded, NeedsSetup)
    else if !exists user :: IsAdmin(db, user) then Indicator(Degraded, IdentityDegraded)
    else if forall user | user in db.users :: db.users[user].status != Active then Indicator(Degraded, IdentityDegraded)
    else CLEAR
  }

  /** An enabled service with a rule to an active group. */
  predicate Linked(db: Db, row: (nat, nat)) {
    && row in db.rules
    && row.0 in db.services && db.services[row.0].enabled
    && row.1 in db.groups && db.groups[row.1].active
  }

  ghost function CatalogIndicator(db: Db, installation: Level): Indicator {
    if installation == SetupNeeded then Indicator(Unknown, CatalogUnknown)
    else if db.services == map[] then Indicator(Degraded, CatalogDegraded)
    else if (forall s | s in db.services :: !db.services[s].enabled) || (forall row :: !Linked(db, row))
    then Indicator(Degraded, CatalogDegraded)
    else CLEAR
  }

  function AuditIndicator(readable: bool): Indicator {
    if readable then CLEAR else Indicator(Unavailable, AuditUnavailable)
  }

  predicate Says(checks: seq<Indicator>, reason: Reason) {
    exists check | check in checks :: check.reason == reason
  }

  /** The first of these reasons, in this order, that some check gives. */
  function FirstRanked(checks: seq<Indicator>): Option<Reason> {
    if Says(checks, IdentityDegraded) then Some(IdentityDegraded)
    else if Says(checks, CatalogDegraded) then Some(CatalogDegraded)
    else if Says(checks, AuditUnavailable) then Some(AuditUnavailable)
    else if Says(checks, InstallationDegraded) then Some(InstallationDegraded)
    else if Says(checks, InstallationUnavailable) then Some(InstallationUnavailable)
    else None
  }

  function FirstUnhealthy(checks: seq<Indicator>): Option<Indicator> {
    if checks == [] then None
    else if checks[0].level != Healthy then Some(checks[0])
    else FirstUnhealthy(checks[1..])
  }

  /** `_overall_status`; the storage check comes first. */
  function OverallStatus(checks: seq<Indicator>): Readiness
    requires checks != []
  {
    var ranked := FirstRanked(checks);
    if checks[0].level == Unavailable then Readiness(Unavailable, StorageUnavailable)
    else if exists check | check in checks :: check.level == SetupNeeded then Readiness(SetupNeeded, NeedsSetup)
    else if ranked.Some? then
      Readiness(if ranked.value in {AuditUnavailable, InstallationUnavailable} then Unavailable else Degraded, ranked.value)
    else
      var first := FirstUnhealthy(checks);
      if first.Some? then Readiness(Degraded, first.value.reason) else Readiness(Healthy, AllClear)
  }

  /** `evaluate_readiness`: `storage` and `audit` say whether those tables could be read. */
  ghost function Evaluate(db: Db, storage: bool, audit: bool): Readiness {
    var unknown := Indicator(Unknown, OtherUnknown);
    if !storage then OverallStatus([Indicator(Unavailable, StorageUnavailable), unknown, unknown, unknown, unknown])
    else
      var installation := InstallationIndicator(db);
      OverallStatus([CLEAR, installation, IdentityIndicator(db, installation.level),
                     CatalogIndicator(db, installation.level), AuditIndicator(audit)])
  }

  ghost predicate SomethingLinked(db: Db) {
    exists row :: Linked(db, row)
  }

  /** The whole table of answers over reachable stores: identity is never what is degraded. */
  lemma ReadinessOfReachableStores(start: World, ops: seq<Op>, storage: bool, audit: bool)
    requires Initial(start)
    ensures
      var db := Run(start, ops).db;
      Evaluate(db, storage, audit) ==
        if !storage then Readiness(Unavailable, StorageUnavailable)
        else if db.users == map[] then Readiness(SetupNeeded, NeedsSetup)
        else if !SomethingLinked(db) then Readiness(Degraded, CatalogDegraded)
        else if !audit then Readiness(Unavailable, AuditUnavailable)
        else Readiness(Healthy, AllClear)
  {
    hide WorkersSound, WinsSound, Run;
    ReachableIsSafe(start, ops);
    var db := Run(start, ops).db;
    var installation := InstallationIndicator(db);
    if storage {
      var checks := [CLEAR, installation, IdentityIndicator(db, installation.level),
                     CatalogIndicator(db, installation.level), AuditIndicator(audit)];
      if db.users == map[] {
        assert checks[1].level == SetupNeeded;
      } else {
        IdentityIsHealthy(db);
        CatalogFollowsLinks(db);
        assert checks == [CLEAR, CLEAR, CLEAR, CatalogIndicator(db, Healthy), AuditIndicator(audit)];
        OverallOfFive(CatalogIndicator(db, Healthy), AuditIndicator(audit));
      }
    }
  }

  lemma IdentityIsHealthy(db: Db)
    requires Recoverable(db) && db.users != map[]
    ensures InstallationIndicator(db) == CLEAR && IdentityIndicator(db, Healthy) == CLEAR
  {
    var user :| IsAdmin(db, user);
  }

  lemma CatalogFollowsLinks(db: Db)
    ensures CatalogIndicator(db, Healthy) == if SomethingLinked(db) then CLEAR else Indicator(Degraded, CatalogDegraded)
  {
    if row :| Linked(db, row) {
      assert row.0 in db.services;
    }
  }

  lemma OverallOfFive(catalog: Indicator, audit: Indicator)
    requires catalog in {CLEAR, Indicator(Degraded, CatalogDegraded)}
    requires audit in {CLEAR, Indicator(Unavailable, AuditUnavailable)}
    ensures OverallStatus([CLEAR, CLEAR, CLEAR, catalog, audit]) ==
      if catalog != CLEAR then Readiness(Degraded, CatalogDegraded)
      else if audit != CLEAR then Readiness(Unavailable, AuditUnavailable)
      else Readiness(Healthy, AllClear)
  {
    var checks := [CLEAR, CLEAR, CLEAR, catalog, audit];
    assert forall check | check in checks :: check == CLEAR || check == catalog || check == audit;
    assert checks[3] in checks && checks[4] in checks;
    if catalog == CLEAR && audit == CLEAR {
      NobodyUnhealthy(checks);
    }
  }

  lemma {:induction false} NobodyUnhealthy(checks: seq<Indicator>)
    requires forall check | check in checks :: check.level == Healthy
    ensures FirstUnhealthy(checks).None?
  {
    if checks != [] {
      NobodyUnhealthy(checks[1..]);
    }
  }
}

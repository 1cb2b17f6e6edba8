/** The store as the services work on it: one field per table, one method per service call. Every
    method answers and leaves exactly what its specification says, and keeps the invariant. */
module Portal {
  import opened Text
  import opened Records
  import opened StoreInvariant
  import opened StoreSteps
  import opened Access
  import opened AccessTheorems
  import AccountTheorems
  import SignInTheorems
  import Order
  import UserAdmin
  import GroupAdmin
  import ServiceCatalog
  import SignIn
  import PasswordReset
  import ProxyAuthorization

  lemma StaysValid(before: Db, after: Db)
    requires GoodStep(before, after)
    ensures Inv(after)
  {}

  // ---- what the access queries collect ----

  /** One of the rule rows `seen` gives `user` the service through a group called `name`. */
  ghost predicate GrantedBy(db: Db, user: nat, seen: set<(nat, nat)>, service: nat, name: string) {
    exists group: nat :: (service, group) in seen && Grants(db, group, user, service) && db.groups[group].name == name
  }

  ghost predicate Collected(db: Db, user: nat, seen: set<(nat, nat)>, grants: map<nat, set<string>>) {
    forall service: nat, name: string ::
      service in grants && name in grants[service] <==> GrantedBy(db, user, seen, service, name)
  }

  function WithGrant(grants: map<nat, set<string>>, service: nat, name: string): map<nat, set<string>> {
    grants[service := (if service in grants then grants[service] else {}) + {name}]
  }

  lemma CollectRow(db: Db, user: nat, seen: set<(nat, nat)>, grants: map<nat, set<string>>, service: nat, group: nat)
    requires Collected(db, user, seen, grants)
    ensures Grants(db, group, user, service) ==>
      Collected(db, user, seen + {(service, group)}, WithGrant(grants, service, db.groups[group].name))
    ensures !Grants(db, group, user, service) ==> Collected(db, user, seen + {(service, group)}, grants)
  {
    var more := seen + {(service, group)};
    forall s: nat, n: string
      ensures GrantedBy(db, user, more, s, n) <==>
        GrantedBy(db, user, seen, s, n) || (s == service && Grants(db, group, user, service) && db.groups[group].name == n)
    {
      if GrantedBy(db, user, seen, s, n) {
        var g: nat :| (s, g) in seen && Grants(db, g, user, s) && db.groups[g].name == n;
        assert (s, g) in more;
      }
      if s == service && Grants(db, group, user, service) && db.groups[group].name == n {
        assert (service, group) in more;
      }
    }
  }

  lemma CollectedNames(db: Db, user: nat, grants: map<nat, set<string>>, service: nat)
    requires Collected(db, user, db.rules, grants)
    ensures (if service in grants then grants[service] else {}) == GrantingNames(db, user, service)
  {
    var names := if service in grants then grants[service] else {};
    forall n ensures n in names <==> n in GrantingNames(db, user, service) {
      assert n in names <==> GrantedBy(db, user, db.rules, service, n);
    }
  }

  lemma NothingCollected(db: Db, user: nat)
    ensures Collected(db, user, {}, map[])
  {}

  lemma NothingListed()
    ensures Listing([], map[])
  {}

  lemma AllRecords(db: Db, user: nat, records: map<nat, AccessRecord>)
    requires user in db.users && (forall s :: s in records <==> s in db.services)
    requires forall s | s in records :: records[s] == RecordOf(db, user, s)
    ensures records == AccessOf(db, user)
  {}

  lemma RecordNamesService(db: Db, user: nat, service: nat)
    requires user in db.users && service in db.services
    ensures RecordOf(db, user, service).serviceId == service
  {}

  lemma ListOneMore(items: seq<AccessRecord>, records: map<nat, AccessRecord>, item: AccessRecord)
    requires Listing(items, records) && item.serviceId !in records
    ensures Listing(items + [item], records[item.serviceId := item])
  {
    var more := items + [item];
    var grown := records[item.serviceId := item];
    forall s | s in grown ensures exists i :: 0 <= i < |more| && more[i].serviceId == s {
      if s == item.serviceId {
        assert more[|items|].serviceId == s;
      } else {
        var i :| 0 <= i < |items| && items[i].serviceId == s;
        assert more[i].serviceId == s;
      }
    }
  }

  // ---- the order services are listed in ----

  /** `a` is listed before `b`: by display name, then by id. */
  predicate Earlier(services: map<nat, Service>, a: nat, b: nat)
    requires a in services && b in services
  {
    var one, two := services[a].displayName, services[b].displayName;
    Order.Less(one, two) || (one == two && a < b)
  }

  ghost predicate InNameOrder(services: map<nat, Service>, ids: seq<nat>) {
    && (forall i | 0 <= i < |ids| :: ids[i] in services)
    && forall i, j | 0 <= i < j < |ids| :: Earlier(services, ids[i], ids[j])
  }

  function ServiceIds(records: seq<AccessRecord>): seq<nat> {
    seq(|records|, i requires 0 <= i < |records| => records[i].serviceId)
  }

  lemma EarlierOrder(services: map<nat, Service>, a: nat, b: nat, c: nat)
    requires a in services && b in services && c in services
    ensures Earlier(services, a, b) || a == b || Earlier(services, b, a)
    ensures Earlier(services, a, b) && Earlier(services, b, c) ==> Earlier(services, a, c)
  {
    hide Order.Less;
    var one, two, three := services[a].displayName, services[b].displayName, services[c].displayName;
    Order.Trichotomy(one, two);
    if Order.Less(one, two) && Order.Less(two, three) {
      Order.Transitive(one, two, three);
    }
  }

  lemma InsertInNameOrder(services: map<nat, Service>, ids: seq<nat>, id: nat, k: nat)
    requires InNameOrder(services, ids) && id in services && id !in ids && k <= |ids|
    requires forall i | 0 <= i < k :: Earlier(services, ids[i], id)
    requires k < |ids| ==> !Earlier(services, ids[k], id)
    ensures InNameOrder(services, ids[..k] + [id] + ids[k..])
    ensures forall other :: other in ids[..k] + [id] + ids[k..] <==> other in ids || other == id
  {
    hide Earlier;
    forall j | k <= j < |ids| ensures Earlier(services, id, ids[j]) {
      EarlierOrder(services, ids[k], id, id);
      if j > k {
        EarlierOrder(services, id, ids[k], ids[j]);
      }
    }
    assert ids == ids[..k] + ids[k..];
  }

  lemma InNameOrderFacts(services: map<nat, Service>, ids: seq<nat>)
    requires InNameOrder(services, ids)
    ensures forall i | 0 <= i < |ids| :: ids[i] in services
    ensures forall i, j | 0 <= i < j < |ids| ::
      ids[i] != ids[j] && !Order.Less(services[ids[j]].displayName, services[ids[i]].displayName)
  {
    hide Order.Less;
    forall i, j | 0 <= i < j < |ids|
      ensures ids[i] != ids[j] && !Order.Less(services[ids[j]].displayName, services[ids[i]].displayName)
    {
      assert Earlier(services, ids[i], ids[j]);
      Order.Trichotomy(services[ids[i]].displayName, services[ids[j]].displayName);
    }
  }

  // ---- what the list of permitted services collects ----

  /** One of the rule rows `seen` opens the enabled service to the user. */
  ghost predicate Permitted(db: Db, user: nat, seen: set<(nat, nat)>, service: nat) {
    && service in db.services && db.services[service].enabled
    && exists group: nat :: (service, group) in seen && Grants(db, group, user, service)
  }

  lemma PermitRow(db: Db, user: nat, seen: set<(nat, nat)>, service: nat, group: nat)
    ensures forall s: nat :: Permitted(db, user, seen + {(service, group)}, s) <==>
      Permitted(db, user, seen, s) ||
      (s == service && s in db.services && db.services[s].enabled && Grants(db, group, user, s))
  {
    var more := seen + {(service, group)};
    forall s: nat ensures Permitted(db, user, more, s) <==>
      Permitted(db, user, seen, s) ||
      (s == service && s in db.services && db.services[s].enabled && Grants(db, group, user, s))
    {
      if Permitted(db, user, seen, s) {
        var g: nat :| (s, g) in seen && Grants(db, g, user, s);
        assert (s, g) in more;
      }
      if s == service && Grants(db, group, user, s) {
        assert (s, group) in more;
      }
    }
  }

  lemma PermittedMayEnter(db: Db, user: nat, service: nat)
    requires user in db.users && db.users[user].status == Active
    ensures Permitted(db, user, db.rules, service) <==> MayEnter(db, user, service)
  {
    if group: nat :| Grants(db, group, user, service) {
      assert (service, group) in db.rules;
    }
  }

  lemma NothingPermitted(db: Db, user: nat)
    requires user in db.users && db.users[user].status != Active
    ensures forall service :: !MayEnter(db, user, service)
  {}

  lemma NothingSeen(db: Db, user: nat)
    ensures forall service: nat :: !Permitted(db, user, {}, service)
  {}

  lemma AdminOutsideCount(db: Db, group: nat, admins: set<nat>, members: set<nat>)
    requires forall id :: id in admins <==> ActiveAdmin(db, id)
    requires forall id :: id in members <==> id in admins && (id, group) in db.memberships
    ensures GroupAdmin.AdminOutside(db, group) <==> admins != {} && admins != members
  {
    if id :| id in admins && id !in members {
      assert ActiveAdmin(db, id) && (id, group) !in db.memberships;
    }
  }

  lemma OnlyAnswer(db: Db, email: string, password: string, user: nat)
    requires Inv(db) && SignIn.QueryReturns(db, email, user)
    ensures forall other | SignIn.QueryReturns(db, email, other) :: other == user
    ensures forall other: nat | SignInTheorems.CanSignIn(db, other, email, password) :: other == user
  {
    hide Inv, EmailsFolded, EmailsUnique, SqlLower, CaseFold, Strip;
    AccountTheorems.FoldedRows(db);
    forall other: nat | SignInTheorems.CanSignIn(db, other, email, password) ensures other == user {
      AccountTheorems.QueryHasOneAnswer(db, email, user, other);
    }
    forall other | SignIn.QueryReturns(db, email, other) ensures other == user {
      AccountTheorems.QueryHasOneAnswer(db, email, user, other);
    }
  }

  lemma ConsumeKeeps(db: Db, token: nat, service: nat, now: int, later: int)
    requires Inv(db)
    ensures Inv(ProxyAuthorization.ConsumeLaunchTicket(db, token, service, now, later).db)
  {
    hide Inv, GoodStep, ProxyAuthorization.CheckTicket, ProxyAuthorization.SetConsumed;
    var read := ProxyAuthorization.ReadTicket(db, token, service, now);
    if read.Continues? {
      var checked := ProxyAuthorization.CheckTicket(db, read.redemption, later);
      CheckTicketKeeps(db, read.redemption, later);
      StaysValid(db, checked.db);
      if checked.progress.Continues? {
        SetConsumedKeeps(checked.db, checked.progress.redemption);
        StaysValid(checked.db, ProxyAuthorization.SetConsumed(checked.db, checked.progress.redemption).db);
      }
    }
  }

  lemma SetUserStatusStays(db: Db, actor: nat, target: nat, expected: nat, status: string, apply: bool, now: int)
    requires Inv(db)
    ensures Inv(UserAdmin.SetUserStatus(db, actor, target, expected, status, apply, now).db)
  {
    hide Inv, GoodStep;
    SetUserStatusKeeps(db, actor, target, expected, status, apply, now);
    StaysValid(db, UserAdmin.SetUserStatus(db, actor, target, expected, status, apply, now).db);
  }

  lemma SignInStays(db: Db, user: nat, email: string, password: string, ttl: int, now: int)
    requires Inv(db)
    ensures Inv(SignIn.SignIn(db, user, email, password, ttl, now).db)
  {
    hide Inv, GoodStep;
    SignInKeeps(db, user, email, password, ttl, now);
    StaysValid(db, SignIn.SignIn(db, user, email, password, ttl, now).db);
  }

  lemma DeleteUserStays(db: Db, actor: nat, target: nat, expected: nat, apply: bool)
    requires Inv(db)
    ensures Inv(UserAdmin.DeleteUser(db, actor, target, expected, apply).db)
  {
    hide Inv, GoodStep;
    DeleteUserKeeps(db, actor, target, expected, apply);
    StaysValid(db, UserAdmin.DeleteUser(db, actor, target, expected, apply).db);
  }

  lemma SaveServiceStays(db: Db, original: Option<string>, form: ServiceCatalog.Form, hint: nat)
    requires Inv(db)
    ensures SlugsUnique(db) && Inv(ServiceCatalog.SaveService(db, original, form, hint).db)
  {
    hide Inv, GoodStep;
    SaveServiceKeeps(db, original, form, hint);
    StaysValid(db, ServiceCatalog.SaveService(db, original, form, hint).db);
    SlugsDiffer(db);
  }

  lemma BootstrapStays(db: Db, email: string, displayName: string, password: string, hint: nat, now: int)
    requires Inv(db)
    ensures Inv(SignIn.Bootstrap(db, email, displayName, password, hint, now).db)
  {
    hide Inv, GoodStep;
    BootstrapKeeps(db, email, displayName, password, hint, now);
    StaysValid(db, SignIn.Bootstrap(db, email, displayName, password, hint, now).db);
  }

  /** What the checks of a profile update come to. */
  datatype Answer = Stops(outcome: Outcome) | Stores(row: User)

  class Store {
    var users: map<nat, User>
    var groups: map<nat, Group>
    var memberships: set<(nat, nat)>
    var services: map<nat, Service>
    var rules: set<(nat, nat)>
    var sessions: map<nat, Session>
    var tickets: map<nat, Ticket>
    var resets: map<nat, Reset>
    var installation: Option<Installation>
    var entropy: nat

    /** The service cookies signed so far. */
    var cookies: set<Cookie>

    ghost function Snapshot(): Db
      reads this
    {
      Db(users, groups, memberships, services, rules, sessions, tickets, resets, installation, entropy)
    }

    ghost predicate Valid()
      reads this
    {
      Inv(Snapshot())
    }

    constructor ()
      ensures Valid()
      ensures Snapshot() == Db(map[], map[], {}, map[], {}, map[], map[], map[], None, 0) && cookies == {}
    {
      users, groups, memberships := map[], map[], {};
      services, rules := map[], {};
      sessions, tickets, resets := map[], map[], map[];
      installation, entropy, cookies := None, 0, {};
    }

    // ---- access_service ----

    /** `may_enter` */
    method EntryAllowed(user: nat, service: nat) returns (may: bool)
      ensures may == MayEnter(Snapshot(), user, service)
    {
      if user !in users || users[user].status != Active || service !in services || !services[service].enabled {
        return false;
      }
      may := exists row | row in rules ::
        row.0 == service && (user, row.1) in memberships && row.1 in groups && groups[row.1].active;
      ghost var db := Snapshot();
      if may {
        ghost var row: (nat, nat) :| row in rules &&
          row.0 == service && (user, row.1) in memberships && row.1 in groups && groups[row.1].active;
        assert Grants(db, row.1, user, service);
      } else {
        forall group: nat | (service, group) in rules ensures !Grants(db, group, user, service) {
          var row := (service, group);
          assert row in rules && row.0 == service && row.1 == group;
        }
      }
    }

    /** `ORDER BY display_name, id` */
    method OrderByName(chosen: set<nat>) returns (ids: seq<nat>)
      requires chosen <= services.Keys
      ensures InNameOrder(services, ids)
      ensures forall id :: id in ids <==> id in chosen
    {
      ids := [];
      var rest := chosen;
      while rest != {}
        invariant rest <= chosen && InNameOrder(services, ids)
        invariant forall id :: id in ids <==> id in chosen - rest
        decreases |rest|
      {
        var id :| id in rest;
        var k := 0;
        while k < |ids| && Earlier(services, ids[k], id)
          invariant k <= |ids|
          invariant forall i | 0 <= i < k :: Earlier(services, ids[i], id)
        {
          k := k + 1;
        }
        InsertInNameOrder(services, ids, id, k);
        ids := ids[..k] + [id] + ids[k..];
        rest := rest - {id};
      }
    }

    /** `list_permitted_services`: the rules joined with enabled services, kept when the correlated
        query finds the membership and the active group, without duplicates, by display name. */
    method ListPermittedServices(user: nat) returns (listed: seq<nat>)
      requires user in users
      ensures forall service: nat :: service in listed <==> MayEnter(Snapshot(), user, service)
      ensures forall i, j | 0 <= i < j < |listed| :: listed[i] != listed[j]
      ensures forall i | 0 <= i < |listed| :: listed[i] in services
      ensures forall i, j | 0 <= i < j < |listed| ::
        !Order.Less(services[listed[j]].displayName, services[listed[i]].displayName)
    {
      hide MayEnter, Permitted;
      listed := [];
      if users[user].status != Active {
        NothingPermitted(Snapshot(), user);
        return;
      }
      var distinct: set<nat> := {};
      var rest := rules;
      NothingSeen(Snapshot(), user);
      assert rules - rest == {};
      while rest != {}
        invariant rest <= rules && distinct <= services.Keys
        invariant forall service: nat :: service in distinct <==> Permitted(Snapshot(), user, rules - rest, service)
        decreases |rest|
      {
        var row :| row in rest;
        var (service, group) := row;
        PermitRow(Snapshot(), user, rules - rest, service, group);
        assert rules - rest + {(service, group)} == rules - (rest - {row});
        if service in services && services[service].enabled
          && (user, group) in memberships && group in groups && groups[group].active
        {
          distinct := distinct + {service};
        }
        rest := rest - {row};
      }
      assert rules - rest == rules;
      listed := OrderByName(distinct);
      InNameOrderFacts(services, listed);
      forall service: nat ensures service in listed <==> MayEnter(Snapshot(), user, service) {
        PermittedMayEnter(Snapshot(), user, service);
      }
    }

    /** The dictionary `effective_access_for_user` fills from the joined rows. */
    method CollectGrants(user: nat) returns (grants: map<nat, set<string>>)
      ensures Collected(Snapshot(), user, rules, grants)
    {
      hide Collected;
      grants := map[];
      NothingCollected(Snapshot(), user);
      var rest := rules;
      assert rules - rest == {};
      while rest != {}
        invariant rest <= rules
        invariant Collected(Snapshot(), user, rules - rest, grants)
        decreases |rest|
      {
        var row :| row in rest;
        var (service, group) := row;
        CollectRow(Snapshot(), user, rules - rest, grants, service, group);
        assert rules - rest + {(service, group)} == rules - (rest - {row});
        if (user, group) in memberships && group in groups && groups[group].active {
          grants := WithGrant(grants, service, groups[group].name);
        }
        rest := rest - {row};
      }
      assert rules - rest == rules;
    }

    /** One round of the second loop of `effective_access_for_user`. */
    method Explain(user: nat, service: nat, names: set<string>) returns (record: AccessRecord)
      requires user in users && service in services && names == GrantingNames(Snapshot(), user, service)
      ensures record == RecordOf(Snapshot(), user, service)
    {
      hide GrantingNames;
      var granting := Order.Sort(names);
      Order.ListingUnique(granting, Order.Sorted(names), names);
      var row := services[service];
      var granted := granting != [];
      var usable := granted && users[user].status == Active && row.enabled;
      var reason :=
        if usable then None
        else if users[user].status != Active then Some(UserDisabled)
        else if !row.enabled then Some(ServiceDisabled)
        else Some(NoMatchingGroup);
      record := AccessRecord(service, row.slug, row.displayName, row.enabled, granting, granted, usable, reason);
    }

    /** `effective_access_for_user` */
    method EffectiveAccess(user: nat) returns (records: seq<AccessRecord>)
      requires user in users
      ensures Listing(records, AccessOf(Snapshot(), user))
      ensures InNameOrder(services, ServiceIds(records))
    {
      hide RecordOf, GrantingNames, Collected, Listing, InNameOrder, AccessOf;
      var grants := CollectGrants(user);
      var ids := OrderByName(services.Keys);
      InNameOrderFacts(services, ids);
      records := [];
      ghost var done: map<nat, AccessRecord> := map[];
      NothingListed();
      for i := 0 to |ids|
        invariant ServiceIds(records) == ids[..i]
        invariant forall s :: s in done <==> s in ids[..i]
        invariant forall s | s in done :: done[s] == RecordOf(Snapshot(), user, s)
        invariant Listing(records, done)
      {
        var service := ids[i];
        CollectedNames(Snapshot(), user, grants, service);
        var record := Explain(user, service, if service in grants then grants[service] else {});
        RecordNamesService(Snapshot(), user, service);
        ListOneMore(records, done, record);
        records := records + [record];
        done := done[service := record];
        assert ids[..i + 1] == ids[..i] + [service];
      }
      assert ids[..|ids|] == ids;
      AllRecords(Snapshot(), user, done);
    }

    // ---- user_admin_service ----

    /** `require_admin_actor` */
    method RequireAdmin(actor: nat) returns (granted: bool)
      ensures granted == IsAdmin(Snapshot(), actor)
    {
      if actor !in users {
        return false;
      }
      var current := users[actor];
      return current.status == Active && current.credential == Permanent && current.isAdmin;
    }

    /** `_target_for_change` */
    method TargetForChange(actor: nat, target: nat, expected: nat) returns (problem: Option<Outcome>)
      ensures problem == UserAdmin.TargetProblem(Snapshot(), actor, target, expected)
    {
      var granted := RequireAdmin(actor);
      if !granted {
        return Some(Denied);
      }
      if target !in users {
        return Some(NotFound);
      }
      if users[target].revision != expected {
        return Some(Conflict);
      }
      return None;
    }

    /** `_protect_admin_change`, counting the other administrators. */
    method ProtectAdminChange(actor: nat, target: nat, removing: bool, disabling: bool) returns (allowed: bool)
      requires target in users
      ensures allowed == UserAdmin.AdminChangeAllowed(Snapshot(), actor, target, removing, disabling)
    {
      if target == actor && (removing || disabling) {
        return false;
      }
      if users[target].isAdmin && users[target].status == Active && (removing || disabling) {
        var others := set id | id in users && users[id].isAdmin && users[id].status == Active && id != target;
        if |others| == 0 {
          assert forall id | id != target && ActiveAdmin(Snapshot(), id) :: id in others;
          return false;
        }
        ghost var other :| other in others;
        assert ActiveAdmin(Snapshot(), other);
      }
      return true;
    }

    /** `revoke_user_sessions` */
    method RevokeUserSessions(user: nat, now: int)
      modifies `sessions
      ensures sessions == RevokeAll(old(sessions), user, now)
    {
      ghost var before := sessions;
      var rest := set sid | sid in sessions && sessions[sid].userId == user && sessions[sid].revokedAt.None?;
      while rest != {}
        invariant sessions.Keys == before.Keys && rest <= before.Keys
        invariant forall sid | sid in rest ::
          before[sid].userId == user && before[sid].revokedAt.None? && sessions[sid] == before[sid]
        invariant forall sid | sid in before && sid !in rest :: sessions[sid] == RevokeAll(before, user, now)[sid]
        decreases |rest|
      {
        var sid :| sid in rest;
        sessions := sessions[sid := sessions[sid].(revokedAt := Some(now))];
        rest := rest - {sid};
      }
    }

    method AddMemberships(user: nat, added: set<nat>)
      modifies `memberships
      ensures memberships == old(memberships) + MembershipRows(user, added)
    {
      ghost var before := memberships;
      var rest := added;
      while rest != {}
        invariant rest <= added && memberships == before + MembershipRows(user, added - rest)
        decreases |rest|
      {
        var group :| group in rest;
        memberships := memberships + {(user, group)};
        rest := rest - {group};
        assert MembershipRows(user, added - rest) == MembershipRows(user, added - (rest + {group})) + {(user, group)};
      }
      assert added - rest == added;
    }

    /** The conditional UPDATE of `change_memberships` and the rows it replaces. */
    method CommitMemberships(target: nat, desired: set<nat>, expected: nat, ghost change: UserAdmin.Change) returns (outcome: Outcome)
      requires Valid()
      requires change.target == target && change.desired == desired && change.expected == expected
      modifies `users, `memberships
      ensures Valid()
      ensures Txn(outcome, Snapshot()) == UserAdmin.CommitMemberships(old(Snapshot()), change)
    {
      hide Inv, GoodStep;
      ghost var db := Snapshot();
      CommitMembershipsKeeps(db, change);
      StaysValid(db, UserAdmin.CommitMemberships(db, change).db);
      var changed := target in users && users[target].revision == expected;
      if !changed {
        return Conflict;
      }
      users := users[target := users[target].(revision := users[target].revision + 1)];
      memberships := WithoutUser(memberships, target);
      AddMemberships(target, desired);
      return Success;
    }

    /** `change_memberships` without interruption. The report written over the access before the
        change gives the access after it. */
    method ChangeMemberships(actor: nat, target: nat, desired: set<nat>, expected: nat, apply: bool)
      returns (outcome: Outcome, added: set<nat>, removed: set<nat>, report: seq<AccessRecord>)
      requires Valid()
      modifies `users, `memberships
      ensures Valid()
      ensures Txn(outcome, Snapshot()) == UserAdmin.ChangeMemberships(old(Snapshot()), actor, target, desired, expected, apply)
      ensures outcome == Success ==>
        && target in old(users) && target in users
        && added == desired - GroupsOf(old(memberships), target)
        && removed == GroupsOf(old(memberships), target) - desired
        && (!apply ==> Listing(report, AccessOf(old(Snapshot()), target)))
        && (apply ==> Overwrite(AccessOf(old(Snapshot()), target), report) == AccessOf(Snapshot(), target))
    {
      hide Inv, GoodStep, Listing, Overwrite, Changed, RecordOf, IsAdmin;
      ghost var db := Snapshot();
      added, removed, report := {}, {}, [];
      var problem := TargetForChange(actor, target, expected);
      if problem.Some? {
        return problem.value, added, removed, report;
      }
      if !(desired <= groups.Keys) {
        return InvalidInput("group_ids"), added, removed, report;
      }
      var existing := GroupsOf(memberships, target);
      added, removed := desired - existing, existing - desired;
      if added == {} && removed == {} {
        assert desired == existing;
        return NoChange, added, removed, report;
      }
      var before := EffectiveAccess(target);
      if !apply {
        return Success, added, removed, before;
      }
      ghost var change := UserAdmin.ReadMemberships(db, actor, target, desired, expected, apply).change;
      outcome := CommitMemberships(target, desired, expected, change);
      var after := EffectiveAccess(target);
      report := Changed(before, after);
      ReportIsExactPatch(before, AccessOf(db, target), after, AccessOf(Snapshot(), target));
    }

    /** The address is taken by somebody other than `except`. */
    method EmailInUse(normalized: string, except: Option<nat>) returns (taken: bool)
      ensures taken == EmailTaken(Snapshot(), normalized, except)
    {
      taken := exists id | id in users && Some(id) != except :: users[id].normalizedEmail == normalized;
    }

    /** The row is flushed; its salt is spent. */
    method InsertUser(row: User, hint: nat) returns (id: nat)
      modifies `users, `entropy
      ensures id == FirstFree(old(users).Keys, hint)
      ensures users == old(users)[id := row] && entropy == old(entropy) + 1
    {
      id := FirstFree(users.Keys, hint);
      users := users[id := row];
      entropy := entropy + 1;
    }

    method CreateUser(actor: nat, email: string, displayName: string, status: string, isAdmin: bool, groupIds: set<nat>,
                      apply: bool, generated: string, hint: nat) returns (outcome: Outcome)
      requires Valid()
      modifies `users, `memberships, `entropy
      ensures Valid()
      ensures Txn(outcome, Snapshot()) == UserAdmin.CreateUser(
        old(Snapshot()), actor, email, displayName, status, isAdmin, groupIds, apply, generated, hint)
    {
      hide Inv, GoodStep, IsAdmin, EmailTaken, Strip, CaseFold, FirstFree;
      ghost var db := Snapshot();
      CreateUserKeeps(db, actor, email, displayName, status, isAdmin, groupIds, apply, generated, hint);
      StaysValid(
        db, UserAdmin.CreateUser(db, actor, email, displayName, status, isAdmin, groupIds, apply, generated, hint).db);
      var granted := RequireAdmin(actor);
      if !granted { return Denied; }
      var canonical, name := Strip(email), Strip(displayName);
      if '@' !in canonical { return InvalidInput("email"); }
      if name == "" { return InvalidInput("display_name"); }
      if UserAdmin.ParseStatus(status).None? { return InvalidInput("status"); }
      var taken := EmailInUse(CaseFold(canonical), None);
      if taken { return InvalidInput("email"); }
      if !(groupIds <= groups.Keys) { return InvalidInput("group_ids"); }
      if !apply { return Success; }
      var id := InsertUser(User(canonical, CaseFold(canonical), name, PasswordHash(generated, entropy),
        UserAdmin.ParseStatus(status).value, Temporary, isAdmin, 1, entropy), hint);
      AddMemberships(id, groupIds);
      return Success;
    }

    /** The row as requested, or the field that is not acceptable. */
    method RequestedProfile(current: User, email: Option<string>, displayName: Option<string>, isAdmin: Option<bool>)
      returns (problem: Option<Outcome>, row: User)
      ensures problem == UserAdmin.ProfileProblem(current, email, displayName)
      ensures problem.None? ==> row == UserAdmin.ProfileRow(current, email, displayName, isAdmin)
    {
      hide Strip, CaseFold;
      row := current;
      if email.Some? && Strip(email.value) != current.email {
        if '@' !in email.value { return Some(InvalidInput("email")), row; }
        row := row.(email := Strip(email.value), normalizedEmail := CaseFold(Strip(email.value)));
      }
      if displayName.Some? && Strip(displayName.value) != current.displayName {
        if Strip(displayName.value) == "" { return Some(InvalidInput("display_name")), row; }
        row := row.(displayName := Strip(displayName.value));
      }
      if isAdmin.Some? {
        row := row.(isAdmin := isAdmin.value);
      }
      return None, row;
    }

    /** The writes of `update_user`: a changed administrator flag ends the user's sessions. */
    method CommitProfile(target: nat, row: User, now: int)
      requires target in users
      modifies `users, `sessions
      ensures users == old(users)[target := row.(revision := row.revision + 1)]
      ensures sessions == if row.isAdmin != old(users)[target].isAdmin then RevokeAll(old(sessions), target, now) else old(sessions)
    {
      var revokes := row.isAdmin != users[target].isAdmin;
      users := users[target := row.(revision := row.revision + 1)];
      if revokes {
        RevokeUserSessions(target, now);
      }
    }

    /** Everything `update_user` looks at before it writes: the answer that stops it, or the row to store. */
    method ProfileToStore(actor: nat, target: nat, expected: nat, email: Option<string>, displayName: Option<string>,
                          isAdmin: Option<bool>, apply: bool, ghost now: int) returns (answer: Answer)
      requires Valid()
      ensures
        var txn := UserAdmin.UpdateUser(Snapshot(), actor, target, expected, email, displayName, isAdmin, apply, now);
        match answer
        case Stops(outcome) => txn == Txn(outcome, Snapshot())
        case Stores(row) =>
          && target in users
          && txn == Txn(Success, Snapshot().(
               users := users[target := row.(revision := row.revision + 1)],
               sessions := if row.isAdmin != users[target].isAdmin then RevokeAll(sessions, target, now) else sessions))
    {
      hide Inv, IsAdmin, EmailTaken, UserAdmin.ProfileProblem, UserAdmin.ProfileRow, UserAdmin.AdminChangeAllowed, RevokeAll;
      hide Strip, CaseFold;
      var refused := TargetForChange(actor, target, expected);
      if refused.Some? { return Stops(refused.value); }
      var current := users[target];
      var allowed := ProtectAdminChange(actor, target, isAdmin == Some(false) && current.isAdmin, false);
      if !allowed { return Stops(Denied); }
      var problem, row := RequestedProfile(current, email, displayName, isAdmin);
      if problem.Some? { return Stops(problem.value); }
      if row == current { return Stops(NoChange); }
      if !apply { return Stops(Success); }
      if row.email != current.email {
        var taken := EmailInUse(row.normalizedEmail, Some(target));
        if taken { return Stops(Conflict); }
      }
      return Stores(row);
    }

    method UpdateUser(actor: nat, target: nat, expected: nat, email: Option<string>, displayName: Option<string>,
                      isAdmin: Option<bool>, apply: bool, now: int) returns (outcome: Outcome)
      requires Valid()
      modifies `users, `sessions
      ensures Valid()
      ensures Txn(outcome, Snapshot()) == UserAdmin.UpdateUser(
        old(Snapshot()), actor, target, expected, email, displayName, isAdmin, apply, now)
    {
      hide Inv, GoodStep, UserAdmin.UpdateUser, RevokeAll;
      ghost var db := Snapshot();
      UpdateUserKeeps(db, actor, target, expected, email, displayName, isAdmin, apply, now);
      StaysValid(db, UserAdmin.UpdateUser(db, actor, target, expected, email, displayName, isAdmin, apply, now).db);
      var answer := ProfileToStore(actor, target, expected, email, displayName, isAdmin, apply, now);
      if answer.Stops? { return answer.outcome; }
      CommitProfile(target, answer.row, now);
      return Success;
    }

    method SetUserStatus(actor: nat, target: nat, expected: nat, status: string, apply: bool, now: int)
      returns (outcome: Outcome)
      requires Valid()
      modifies `users, `sessions
      ensures Valid()
      ensures Txn(outcome, Snapshot()) == UserAdmin.SetUserStatus(old(Snapshot()), actor, target, expected, status, apply, now)
    {
      hide Inv, IsAdmin, UserAdmin.AdminChangeAllowed, RevokeAll, UserAdmin.ParseStatus;
      SetUserStatusStays(Snapshot(), actor, target, expected, status, apply, now);
      var parsed := UserAdmin.ParseStatus(status);
      if parsed.None? { return InvalidInput("status"); }
      var wanted := parsed.value;
      var problem := TargetForChange(actor, target, expected);
      if problem.Some? { return problem.value; }
      var row := users[target];
      var allowed := ProtectAdminChange(actor, target, false, wanted == Disabled && row.status == Active);
      if !allowed { return Denied; }
      if row.status == wanted { return NoChange; }
      if !apply { return Success; }
      users := users[target := row.(status := wanted, revision := row.revision + 1)];
      if wanted == Disabled {
        RevokeUserSessions(target, now);
      }
      return Success;
    }

    /** The statements of `delete_user` before the row itself goes. Launch tickets stay. */
    method DropOwned(user: nat)
      modifies `memberships, `sessions, `resets
      ensures memberships == WithoutUser(old(memberships), user)
      ensures sessions == UserAdmin.SessionsWithout(old(sessions), user)
      ensures resets == UserAdmin.ResetsWithout(old(resets), user)
    {
      memberships := WithoutUser(memberships, user);
      sessions := map sid | sid in sessions && sessions[sid].userId != user :: sessions[sid];
      resets := map token | token in resets && resets[token].userId != user :: resets[token];
      resets := map token | token in resets ::
        if resets[token].requestedBy == Some(user) then resets[token].(requestedBy := None) else resets[token];
    }

    method DeleteUser(actor: nat, target: nat, expected: nat, apply: bool) returns (outcome: Outcome)
      requires Valid()
      modifies `users, `memberships, `sessions, `resets
      ensures Valid()
      ensures Txn(outcome, Snapshot()) == UserAdmin.DeleteUser(old(Snapshot()), actor, target, expected, apply)
    {
      hide Inv, GoodStep, IsAdmin, UserAdmin.AdminChangeAllowed, WithoutUser, UserAdmin.SessionsWithout, UserAdmin.ResetsWithout;
      DeleteUserStays(Snapshot(), actor, target, expected, apply);
      var problem := TargetForChange(actor, target, expected);
      if problem.Some? { return problem.value; }
      var allowed := ProtectAdminChange(actor, target, users[target].isAdmin, users[target].status == Active);
      if !allowed { return Denied; }
      if !apply { return Success; }
      DropOwned(target);
      users := users - {target};
      return Success;
    }

    // ---- group_admin_service ----

    /** The checks a group call starts with. */
    method GroupForChange(actor: nat, group: nat, expected: nat) returns (problem: Option<Outcome>)
      ensures problem == GroupAdmin.GroupProblem(Snapshot(), actor, group, expected)
    {
      var granted := RequireAdmin(actor);
      if !granted { return Some(Denied); }
      if group !in groups { return Some(NotFound); }
      if groups[group].revision != expected { return Some(Conflict); }
      return None;
    }

    method NameInUse(normalized: string, except: Option<nat>) returns (taken: bool)
      ensures taken == GroupAdmin.NameTaken(Snapshot(), normalized, except)
    {
      taken := exists id | id in groups && Some(id) != except :: groups[id].normalizedName == normalized;
    }

    /** `_protect_last_admin_group_change` on the two sets it queries. */
    method ProtectLastAdminGroup(group: nat) returns (allowed: bool)
      ensures allowed == GroupAdmin.AdminOutside(Snapshot(), group)
    {
      var admins := set id | id in users && users[id].isAdmin && users[id].status == Active;
      var members := set id | id in admins && (id, group) in memberships;
      AdminOutsideCount(Snapshot(), group, admins, members);
      return admins != {} && admins != members;
    }

    method CreateGroup(actor: nat, name: string, description: string, apply: bool, hint: nat) returns (outcome: Outcome)
      requires Valid()
      modifies `groups
      ensures Valid()
      ensures Txn(outcome, Snapshot()) == GroupAdmin.CreateGroup(old(Snapshot()), actor, name, description, apply, hint)
    {
      hide Inv, GoodStep, IsAdmin, Strip, CaseFold, Collapse, GroupAdmin.NameTaken, FirstFree;
      ghost var db := Snapshot();
      CreateGroupKeeps(db, actor, name, description, apply, hint);
      StaysValid(db, GroupAdmin.CreateGroup(db, actor, name, description, apply, hint).db);
      var granted := RequireAdmin(actor);
      if !granted { return Denied; }
      var canonical := GroupAdmin.Canonical(name);
      if canonical == "" || |canonical| > GroupAdmin.MAX_NAME { return InvalidInput("name"); }
      var taken := NameInUse(CaseFold(canonical), None);
      if taken { return InvalidInput("name"); }
      if !apply { return Success; }
      var id := FirstFree(groups.Keys, hint);
      groups := groups[id := Group(canonical, CaseFold(canonical), GroupAdmin.CleanDescription(description), true, 1)];
      return Success;
    }

    method UpdateGroup(actor: nat, group: nat, expected: nat, name: string, description: string, apply: bool)
      returns (outcome: Outcome)
      requires Valid()
      modifies `groups
      ensures Valid()
      ensures Txn(outcome, Snapshot()) == GroupAdmin.UpdateGroup(old(Snapshot()), actor, group, expected, name, description, apply)
    {
      hide Inv, GoodStep, IsAdmin, Strip, CaseFold, Collapse, GroupAdmin.NameTaken, GroupAdmin.CleanDescription;
      ghost var db := Snapshot();
      UpdateGroupKeeps(db, actor, group, expected, name, description, apply);
      StaysValid(db, GroupAdmin.UpdateGroup(db, actor, group, expected, name, description, apply).db);
      var problem := GroupForChange(actor, group, expected);
      if problem.Some? { return problem.value; }
      var canonical := GroupAdmin.Canonical(name);
      if canonical == "" || |canonical| > GroupAdmin.MAX_NAME { return InvalidInput("name"); }
      var taken := NameInUse(CaseFold(canonical), Some(group));
      if taken { return InvalidInput("name"); }
      var row := groups[group];
      var text := GroupAdmin.CleanDescription(description);
      if canonical == row.name && text == row.description { return NoChange; }
      if !apply { return Success; }
      groups := groups[group := row.(
        name := canonical, normalizedName := CaseFold(canonical), description := text, revision := row.revision + 1)];
      return Success;
    }

    method DeactivateGroup(actor: nat, group: nat, expected: nat, apply: bool) returns (outcome: Outcome)
      requires Valid()
      modifies `groups
      ensures Valid()
      ensures Txn(outcome, Snapshot()) == GroupAdmin.SetGroupActive(old(Snapshot()), actor, group, expected, false, apply)
    {
      hide Inv, GoodStep, IsAdmin, GroupAdmin.AdminOutside;
      ghost var db := Snapshot();
      SetGroupActiveKeeps(db, actor, group, expected, false, apply);
      StaysValid(db, GroupAdmin.SetGroupActive(db, actor, group, expected, false, apply).db);
      var problem := GroupForChange(actor, group, expected);
      if problem.Some? { return problem.value; }
      if !groups[group].active { return NoChange; }
      var allowed := ProtectLastAdminGroup(group);
      if !allowed { return Denied; }
      if !apply { return Success; }
      groups := groups[group := groups[group].(active := false, revision := groups[group].revision + 1)];
      return Success;
    }

    method ReactivateGroup(actor: nat, group: nat, expected: nat, apply: bool) returns (outcome: Outcome)
      requires Valid()
      modifies `groups
      ensures Valid()
      ensures Txn(outcome, Snapshot()) == GroupAdmin.SetGroupActive(old(Snapshot()), actor, group, expected, true, apply)
    {
      hide Inv, GoodStep, IsAdmin, GroupAdmin.AdminOutside;
      ghost var db := Snapshot();
      SetGroupActiveKeeps(db, actor, group, expected, true, apply);
      StaysValid(db, GroupAdmin.SetGroupActive(db, actor, group, expected, true, apply).db);
      var problem := GroupForChange(actor, group, expected);
      if problem.Some? { return problem.value; }
      if groups[group].active { return NoChange; }
      if !apply { return Success; }
      groups := groups[group := groups[group].(active := true, revision := groups[group].revision + 1)];
      return Success;
    }

    method RemoveGroup(actor: nat, group: nat, expected: nat, apply: bool) returns (outcome: Outcome)
      requires Valid()
      modifies `groups
      ensures Valid()
      ensures Txn(outcome, Snapshot()) == GroupAdmin.RemoveGroup(old(Snapshot()), actor, group, expected, apply)
    {
      hide Inv, GoodStep, IsAdmin, GroupAdmin.AdminOutside, GroupAdmin.HasDependencies;
      ghost var db := Snapshot();
      RemoveGroupKeeps(db, actor, group, expected, apply);
      StaysValid(db, GroupAdmin.RemoveGroup(db, actor, group, expected, apply).db);
      var problem := GroupForChange(actor, group, expected);
      if problem.Some? { return problem.value; }
      var allowed := ProtectLastAdminGroup(group);
      if !allowed { return Denied; }
      var userCount, serviceCount := DependencySummary(group);
      if userCount > 0 || serviceCount > 0 { return Conflict; }
      if !apply { return Success; }
      groups := groups - {group};
      return Success;
    }

    /** The two counts of `dependency_summary`. */
    method DependencySummary(group: nat) returns (userCount: nat, serviceCount: nat)
      ensures userCount == |set row | row in memberships && row.1 == group|
      ensures serviceCount == |set row | row in rules && row.1 == group|
      ensures userCount > 0 || serviceCount > 0 <==> GroupAdmin.HasDependencies(Snapshot(), group)
    {
      var members := set row | row in memberships && row.1 == group;
      var users := set row | row in rules && row.1 == group;
      userCount, serviceCount := |members|, |users|;
      if row :| row in members {
        assert (row.0, group) in memberships;
      }
      if row :| row in users {
        assert (row.0, group) in rules;
      }
      if user: nat :| (user, group) in memberships {
        assert (user, group) in members;
      }
      if service: nat :| (service, group) in rules {
        assert (service, group) in users;
      }
    }

    // ---- service_admin_service, service_compatibility_service ----

    /** The query for a slug. Slugs are unique, so any row found is the one the specification means. */
    method FindSlug(slug: string) returns (owner: Option<nat>)
      requires SlugsUnique(Snapshot())
      ensures owner == ServiceCatalog.SlugOwner(Snapshot(), slug)
    {
      ghost var found := ServiceCatalog.SlugOwner(Snapshot(), slug);
      if id :| id in services && services[id].slug == slug {
        assert found.Some? && ServiceCatalog.HasSlug(Snapshot(), found.value, slug);
        return Some(id);
      }
      return None;
    }

    method NamedGroups(names: set<string>) returns (chosen: set<nat>)
      ensures chosen == ServiceCatalog.ActiveNamed(Snapshot(), names)
    {
      chosen := set id | id in groups && groups[id].active && groups[id].name in names;
    }

    /** The checks of `save_service` that look at the form and the groups it names. */
    method FormRefused(form: ServiceCatalog.Form) returns (problem: Option<Outcome>)
      ensures problem == ServiceCatalog.FormProblem(Snapshot(), form)
    {
      hide Strip, IsSlug;
      if !IsSlug(Strip(form.slug)) { return Some(InvalidInput("slug")); }
      if Strip(form.displayName) == "" { return Some(InvalidInput("display_name")); }
      if form.status !in {"enabled", "disabled"} { return Some(InvalidInput("status")); }
      if form.websocket && !form.proxy { return Some(InvalidInput("websocket_enabled")); }
      if !form.trusted { return Some(InvalidInput("destination")); }
      var names := form.Names();
      if form.status == "enabled" && names == {} { return Some(InvalidInput("group_names")); }
      var chosen := NamedGroups(names);
      if |chosen| != |names| { return Some(InvalidInput("group_names")); }
      return None;
    }

    /** The deletion and insertion of a service's rule rows. */
    method ReplaceRules(service: nat, chosen: set<nat>)
      modifies `rules
      ensures rules == ServiceCatalog.RulesWithout(old(rules), service) + MembershipRows(service, chosen)
    {
      rules := ServiceCatalog.RulesWithout(rules, service);
      ghost var kept := rules;
      var rest := chosen;
      while rest != {}
        invariant rest <= chosen && rules == kept + MembershipRows(service, chosen - rest)
        decreases |rest|
      {
        var group :| group in rest;
        rules := rules + {(service, group)};
        rest := rest - {group};
        assert MembershipRows(service, chosen - rest) == MembershipRows(service, chosen - (rest + {group})) + {(service, group)};
      }
      assert chosen - rest == chosen;
    }

    /** The row to change, if there is one, and whether the wanted slug belongs to another. */
    method FindEdited(original: Option<string>, slug: string) returns (edited: Option<nat>, taken: bool)
      requires SlugsUnique(Snapshot())
      ensures edited == ServiceCatalog.Edited(Snapshot(), original)
      ensures taken <==> (edited.None? || slug != original.value) && ServiceCatalog.SlugOwner(Snapshot(), slug).Some?
    {
      edited, taken := None, false;
      if original.Some? && original.value != "" {
        edited := FindSlug(original.value);
      }
      if edited.None? || slug != original.value {
        var other := FindSlug(slug);
        taken := other.Some?;
      }
    }

    method CheckForm(original: Option<string>, form: ServiceCatalog.Form) returns (problem: Option<Outcome>, edited: Option<nat>)
      requires SlugsUnique(Snapshot())
      ensures edited == ServiceCatalog.Edited(Snapshot(), original)
      ensures problem == ServiceCatalog.SaveProblem(Snapshot(), original, form)
    {
      hide Strip, ServiceCatalog.FormProblem, ServiceCatalog.SlugOwner;
      var taken;
      edited, taken := FindEdited(original, Strip(form.slug));
      problem := FormRefused(form);
      if problem.None? && taken {
        problem := Some(InvalidInput("slug"));
      }
    }

    /** The field assignments, the reset of the verdict among them. */
    method AssignFields(was: Option<Service>, form: ServiceCatalog.Form) returns (row: Service)
      ensures row == ServiceCatalog.Written(was, form)
      ensures row.verdict != Unchecked ==> was.Some? && was.value.policy == row.policy
      ensures was.Some? && was.value.policy == row.policy ==>
        row.verdict == was.value.verdict && row.verdictFor == was.value.verdictFor
    {
      hide Strip;
      var policy := form.RequestedPolicy();
      var verdict, verdictFor := Unchecked, policy;
      if was.Some? && was.value.policy == policy {
        verdict, verdictFor := was.value.verdict, was.value.verdictFor;
      }
      var text := Strip(form.description);
      row := Service(Strip(form.slug), Strip(form.displayName), if text == "" then None else Some(text),
        form.status == "enabled", policy, verdict, verdictFor);
    }

    method SaveService(original: Option<string>, form: ServiceCatalog.Form, hint: nat) returns (outcome: Outcome)
      requires Valid()
      modifies `services, `rules
      ensures Valid()
      ensures Txn(outcome, Snapshot()) == ServiceCatalog.SaveService(old(Snapshot()), original, form, hint)
    {
      hide Inv, Strip, FirstFree;
      hide ServiceCatalog.SaveProblem, ServiceCatalog.Edited, ServiceCatalog.RulesWithout, ServiceCatalog.Written;
      hide ServiceCatalog.ActiveNamed, MembershipRows;
      ghost var db := Snapshot();
      SaveServiceStays(db, original, form, hint);
      var problem, edited := CheckForm(original, form);
      if problem.Some? { return problem.value; }
      var chosen := NamedGroups(form.Names());
      var id := if edited.Some? then edited.value else FirstFree(services.Keys, hint);
      var row := AssignFields(if edited.Some? then Some(services[id]) else None, form);
      services := services[id := row];
      ReplaceRules(id, chosen);
      return Success;
    }

    /** The end of `check_service_compatibility`: `status` starts compatible and is lowered by each
        finding. The row may have changed since `policy` and `loaded` were read from it. */
    method RecordCompatibility(service: nat, policy: Policy, loaded: Verdict, seen: ServiceCatalog.Observation)
      requires Valid()
      modifies `services
      ensures Valid()
      ensures Snapshot() == ServiceCatalog.WriteVerdict(old(Snapshot()), ServiceCatalog.Check(service, policy, loaded), seen)
    {
      hide Inv, GoodStep;
      ghost var db := Snapshot();
      ghost var check := ServiceCatalog.Check(service, policy, loaded);
      WriteVerdictKeeps(db, check, seen);
      StaysValid(db, ServiceCatalog.WriteVerdict(db, check, seen));
      var status := Compatible;
      if seen.reached {
        if seen.serverError { status := Failed; }
        if seen.absoluteReference && status == Compatible { status := Limited; }
        if seen.unsafeRedirect && status == Compatible { status := Limited; }
      } else {
        status := Failed;
      }
      if policy.websocket && status == Compatible { status := Limited; }
      if service in services && status != loaded {
        services := services[service := services[service].(verdict := status, verdictFor := policy)];
      }
    }

    // ---- bootstrap_service, session_service and the sign-in routes ----

    /** `is_bootstrap_required` */
    method BootstrapIsRequired() returns (required: bool)
      ensures required == SignIn.BootstrapRequired(Snapshot())
    {
      return |users| == 0 && (installation.None? || !installation.value.initialized);
    }

    /** `_ensure_installation_state` */
    method EnsureInstallationState(now: int)
      requires Valid()
      modifies `installation
      ensures Valid()
      ensures Snapshot() == SignIn.EnsureSchema(old(Snapshot()), now)
    {
      hide Inv, GoodStep;
      ghost var db := Snapshot();
      EnsureSchemaKeeps(db, now);
      StaysValid(db, SignIn.EnsureSchema(db, now));
      if installation.None? {
        installation := Some(if |users| == 0 then Installation(false, 1, None) else Installation(true, 1, Some(now)));
      } else if !installation.value.initialized && |users| > 0 {
        installation := Some(Installation(true, installation.value.revision + 1, Some(now)));
      }
    }

    /** `mark_installation_initialized` */
    method MarkInstallationInitialized(now: int)
      modifies `installation
      ensures installation == Some(SignIn.Initialized(old(installation), now))
    {
      var state := if installation.Some? then installation.value else Installation(false, 0, None);
      installation := Some(Installation(true, state.revision + 1,
        if state.initializedAt.Some? then state.initializedAt else Some(now)));
    }

    /** A missing installation row is inserted. */
    method InsertState()
      modifies `installation
      ensures installation == if old(installation).None? then Some(Installation(false, 1, None)) else old(installation)
    {
      if installation.None? {
        installation := Some(Installation(false, 1, None));
      }
    }

    method BootstrapRefused(email: string, displayName: string, password: string) returns (problem: Option<Outcome>)
      ensures problem == SignIn.BootstrapProblem(Snapshot(), email, displayName, password)
    {
      hide Strip;
      if Strip(displayName) == "" { return Some(InvalidInput("display_name")); }
      if |password| < SignIn.MIN_PASSWORD { return Some(PasswordTooShort); }
      var needsBootstrap := installation.None? || !installation.value.initialized;
      if !needsBootstrap || |users| > 0 { return Some(AlreadyInitialized); }
      if '@' !in Strip(email) { return Some(InvalidInput("email")); }
      return None;
    }

    /** `bootstrap_admin`; a refused attempt is rolled back. */
    method BootstrapAdmin(email: string, displayName: string, password: string, hint: nat, now: int) returns (outcome: Outcome)
      requires Valid()
      modifies `users, `installation, `entropy
      ensures Valid()
      ensures Txn(outcome, Snapshot()) == SignIn.Bootstrap(old(Snapshot()), email, displayName, password, hint, now)
    {
      hide Inv, Strip, CaseFold, FirstFree, SignIn.BootstrapProblem, SignIn.Initialized;
      BootstrapStays(Snapshot(), email, displayName, password, hint, now);
      var problem := BootstrapRefused(email, displayName, password);
      if problem.Some? { return problem.value; }
      InsertState();
      var _ := InsertUser(User(Strip(email), CaseFold(Strip(email)), Strip(displayName), PasswordHash(password, entropy),
        Active, Permanent, true, 1, entropy), hint);
      MarkInstallationInitialized(now);
      return Success;
    }

    /** `validate_session`: on success the owner, and the session is touched. */
    method ValidateSession(sid: nat, now: int) returns (owner: Option<nat>)
      modifies `sessions
      ensures owner.Some? <==> ValidSession(old(Snapshot()), sid, now)
      ensures owner.None? ==> sessions == old(sessions)
      ensures owner.Some? ==> owner.value == old(sessions)[sid].userId && Snapshot() == Touch(old(Snapshot()), sid, now)
    {
      if sid !in sessions || sessions[sid].revokedAt.Some? || sessions[sid].expiresAt <= now {
        return None;
      }
      var user := sessions[sid].userId;
      if user !in users || users[user].status != Active {
        return None;
      }
      sessions := sessions[sid := sessions[sid].(lastSeenAt := now)];
      return Some(user);
    }

    /** The sign-in route past its limiter; `user` is the row its query returned. */
    method SignInRoute(email: string, password: string, ttl: int, now: int) returns (outcome: Outcome, ghost user: nat)
      requires Valid()
      modifies `sessions, `entropy
      ensures Valid()
      ensures Txn(outcome, Snapshot()) == SignIn.SignIn(old(Snapshot()), user, email, password, ttl, now)
      ensures outcome == Success <==> exists row: nat :: SignInTheorems.CanSignIn(old(Snapshot()), row, email, password)
      ensures outcome == InvalidCredentials ==>
        forall other :: SignIn.SignIn(old(Snapshot()), other, email, password, ttl, now).outcome != Success
    {
      hide Inv, GoodStep, Strip, CaseFold, SqlLower, EmailsFolded, EmailsUnique;
      ghost var db := Snapshot();
      user := 0;
      var required := BootstrapIsRequired();
      if required { return SetupPending, user; }
      if found :| found in users && SqlLower(users[found].email) == CaseFold(Strip(email)) {
        user := found;
        OnlyAnswer(db, email, password, user);
        SignInStays(db, user, email, password, ttl, now);
        var row := users[found];
        if !SignIn.Verifies(row.passwordHash, password) { return InvalidCredentials, user; }
        if row.status == Active && row.credential in {Permanent, Temporary} {
          assert SignInTheorems.CanSignIn(db, user, email, password);
          sessions := sessions[entropy := Session(found, now + ttl, None, now)];
          entropy := entropy + 1;
          return Success, user;
        }
      }
      return InvalidCredentials, user;
    }

    method SignOutRoute(sid: nat, now: int) returns (outcome: Outcome)
      requires Valid()
      modifies `sessions
      ensures Valid()
      ensures Txn(outcome, Snapshot()) == SignIn.SignOut(old(Snapshot()), sid, now)
    {
      hide Inv, GoodStep;
      ghost var db := Snapshot();
      SignOutKeeps(db, sid, now);
      StaysValid(db, SignIn.SignOut(db, sid, now).db);
      var owner := ValidateSession(sid, now);
      if owner.None? { return NoChange; }
      sessions := sessions[sid := sessions[sid].(revokedAt := Some(now))];
      assert sessions == SignIn.SignOut(db, sid, now).db.sessions;
      return Success;
    }

    method ChangePasswordRoute(sid: nat, password: string, now: int) returns (outcome: Outcome)
      requires Valid()
      modifies `users, `sessions, `entropy
      ensures Valid()
      ensures Txn(outcome, Snapshot()) == SignIn.ChangePassword(old(Snapshot()), sid, password, now)
    {
      hide Inv, GoodStep;
      ghost var db := Snapshot();
      ChangePasswordKeeps(db, sid, password, now);
      StaysValid(db, SignIn.ChangePassword(db, sid, password, now).db);
      var owner := ValidateSession(sid, now);
      if owner.None? { return InvalidSession; }
      var user := users[owner.value];
      if user.credential != Temporary { return NoChange; }
      if |password| < SignIn.MIN_PASSWORD { return PasswordTooShort; }
      users := users[owner.value := user.(
        passwordHash := PasswordHash(password, entropy), credential := Permanent, revision := user.revision + 1)];
      entropy := entropy + 1;
      return Success;
    }

    // ---- password_reset_service ----

    /** The loop of `initiate_reset` over the user's open requests. */
    method InvalidateOpen(user: nat, now: int)
      modifies `resets
      ensures resets == PasswordReset.Supersede(old(resets), user, now)
    {
      ghost var before := resets;
      var rest := set token | token in resets && resets[token].userId == user && resets[token].Open();
      while rest != {}
        invariant resets.Keys == before.Keys && rest <= before.Keys
        invariant forall token | token in rest ::
          before[token].userId == user && before[token].Open() && resets[token] == before[token]
        invariant forall token | token in before && token !in rest ::
          resets[token] == PasswordReset.Supersede(before, user, now)[token]
        decreases |rest|
      {
        var token :| token in rest;
        resets := resets[token := resets[token].(invalidatedAt := Some(now))];
        rest := rest - {token};
      }
    }

    /** The reset route and `initiate_reset` up to the commit before delivery. */
    method InitiateReset(actor: nat, target: nat, expected: nat, ttl: int, now: int) returns (outcome: Outcome, token: nat)
      requires Valid()
      modifies `resets, `entropy
      ensures Valid()
      ensures Txn(outcome, Snapshot()) == PasswordReset.InitiateReset(old(Snapshot()), actor, target, expected, ttl, now)
      ensures outcome == Success ==> token !in old(resets) && PasswordReset.Usable(Snapshot(), token, now + ttl - 1)
    {
      hide Inv, GoodStep, IsAdmin, PasswordReset.Supersede;
      ghost var db := Snapshot();
      DrawIsNew(db);
      InitiateResetKeeps(db, actor, target, expected, ttl, now);
      StaysValid(db, PasswordReset.InitiateReset(db, actor, target, expected, ttl, now).db);
      token := entropy;
      var problem := TargetForChange(actor, target, expected);
      if problem.Some? { return problem.value, token; }
      InvalidateOpen(target, now);
      resets := resets[token := Reset(target, now + ttl, None, None, Some(actor))];
      entropy := entropy + 1;
      return Success, token;
    }

    /** The handler of a failed delivery. */
    method DeliveryFailed(token: nat, now: int)
      requires Valid()
      modifies `resets
      ensures Valid()
      ensures Snapshot() == PasswordReset.FailDelivery(old(Snapshot()), token, now)
    {
      hide Inv, GoodStep;
      ghost var db := Snapshot();
      FailDeliveryKeeps(db, token, now);
      StaysValid(db, PasswordReset.FailDelivery(db, token, now));
      if token in resets {
        resets := resets[token := resets[token].(invalidatedAt := Some(now))];
      }
    }

    method CompleteReset(token: nat, password: string, now: int) returns (outcome: Outcome)
      requires Valid()
      modifies `users, `resets, `sessions, `entropy
      ensures Valid()
      ensures Txn(outcome, Snapshot()) == PasswordReset.CompleteReset(old(Snapshot()), token, password, now)
    {
      hide Inv, GoodStep, RevokeAll;
      ghost var db := Snapshot();
      CompleteResetKeeps(db, token, password, now);
      StaysValid(db, PasswordReset.CompleteReset(db, token, password, now).db);
      if token !in resets || resets[token].consumedAt.Some? || resets[token].invalidatedAt.Some? || resets[token].expiresAt <= now {
        return InvalidInput("token");
      }
      var user := resets[token].userId;
      if user !in users { return InvalidInput("token"); }
      if |password| < SignIn.MIN_PASSWORD { return PasswordTooShort; }
      users := users[user := users[user].(
        passwordHash := PasswordHash(password, entropy), credential := Permanent, revision := users[user].revision + 1)];
      resets := resets[token := resets[token].(consumedAt := Some(now))];
      RevokeUserSessions(user, now);
      entropy := entropy + 1;
      return Success;
    }

    // ---- proxy_authorization_service and the routes that use it ----

    /** `enter_service` through `issue_launch_ticket`. */
    method EnterService(sid: nat, slug: string, ttl: int, now: int) returns (outcome: Outcome)
      requires Valid()
      modifies `sessions, `tickets, `entropy
      ensures Valid()
      ensures Txn(outcome, Snapshot()) == ProxyAuthorization.EnterService(old(Snapshot()), sid, slug, ttl, now)
    {
      hide Inv, GoodStep, MayEnter, ServiceCatalog.SlugOwner;
      ghost var db := Snapshot();
      SlugsDiffer(db);
      EnterServiceKeeps(db, sid, slug, ttl, now);
      StaysValid(db, ProxyAuthorization.EnterService(db, sid, slug, ttl, now).db);
      var service := FindSlug(slug);
      var may := false;
      if service.Some? && sid in sessions {
        may := EntryAllowed(sessions[sid].userId, service.value);
      }
      var owner := ValidateSession(sid, now);
      if owner.None? { return InvalidSession; }
      if users[owner.value].credential == Temporary { return PasswordChangeRequired; }
      if service.None? { return NotFound; }
      if !services[service.value].enabled { return ServiceUnavailable; }
      if !may { return NotAuthorized; }
      if services[service.value].policy.proxy {
        tickets := tickets[entropy := Ticket(sid, service.value, now + ttl, None)];
        entropy := entropy + 1;
      }
      return Success;
    }

    /** `consume_launch_ticket` without interruption, and the cookie its route signs for the winner. */
    method RedeemTicket(token: nat, service: nat, now: int, later: int) returns (outcome: Outcome)
      requires Valid()
      modifies `sessions, `tickets, `cookies
      ensures Valid()
      ensures Txn(outcome, Snapshot()) == ProxyAuthorization.ConsumeLaunchTicket(old(Snapshot()), token, service, now, later)
      ensures outcome != Success ==> cookies == old(cookies)
      ensures outcome == Success ==>
        && var sid := old(tickets)[token].sessionId;
        && cookies == old(cookies) + {Cookie(sid, service, old(sessions)[sid].expiresAt)}
    {
      hide Inv, GoodStep, MayEnter;
      ghost var db := Snapshot();
      ConsumeKeeps(db, token, service, now, later);
      if
        || token !in tickets
        || tickets[token].serviceId != service
        || tickets[token].consumedAt.Some?
        || tickets[token].expiresAt <= now
      {
        return InvalidLaunchTicket;
      }
      var sid := tickets[token].sessionId;
      var may := false;
      if sid in sessions {
        may := EntryAllowed(sessions[sid].userId, service);
      }
      var owner := ValidateSession(sid, later);
      if owner.None? { return InvalidSession; }
      if service !in services || !services[service].enabled || !services[service].policy.proxy || !may {
        return NotAuthorized;
      }
      tickets := tickets[token := tickets[token].(consumedAt := Some(now))];
      cookies := cookies + {Cookie(sid, service, sessions[sid].expiresAt)};
      return Success;
    }

    /** `authorize_proxy_cookie`; a cookie decodes when it was signed here and is not too old. */
    method AuthorizeProxyCookie(cookie: Cookie, service: nat, now: int) returns (outcome: Outcome)
      requires Valid()
      modifies `sessions
      ensures Valid()
      ensures Txn(outcome, Snapshot()) == ProxyAuthorization.AuthorizeCookie(old(Snapshot()), cookies, cookie, service, now)
    {
      hide Inv, GoodStep, MayEnter;
      ghost var db := Snapshot();
      AuthorizeCookieKeeps(db, cookies, cookie, service, now);
      StaysValid(db, ProxyAuthorization.AuthorizeCookie(db, cookies, cookie, service, now).db);
      if cookie !in cookies || cookie.expiresAt <= now { return InvalidProxyCredential; }
      if cookie.serviceId != service { return ServiceMismatch; }
      var may := false;
      if cookie.sessionId in sessions {
        may := EntryAllowed(sessions[cookie.sessionId].userId, service);
      }
      var owner := ValidateSession(cookie.sessionId, now);
      if owner.None? { return InvalidSession; }
      if service !in services || !services[service].enabled || !services[service].policy.proxy { return ServiceUnavailable; }
      if !may { return NotAuthorized; }
      return Success;
    }
  }
}

/** Every transaction of the store keeps the invariant and only moves forward. Each proof names
    the kind of write its call makes to each concern. */
module StoreSteps {
  import opened Text
  import opened Records
  import opened StoreInvariant
  import UserAdmin
  import GroupAdmin
  import ServiceCatalog
  import SignIn
  import PasswordReset
  import ProxyAuthorization

  /** The concerns a call with no business there leaves alone. */
  lemma RestAlone(a: Db, b: Db)
    requires Inv(a) && AccountsStep(a, b) && SessionsStep(a, b)
    requires b.tickets == a.tickets
    requires b.services == a.services && b.rules == a.rules && b.groups == a.groups
    ensures TicketsStep(a, b) && CatalogueStep(a, b)
  {
    TicketsAlone(a, b);
    GroupsMoved(a, b);
  }

  /** Sessions and requests of users that stay as they are. */
  lemma OwnedAlone(a: Db, b: Db)
    requires Inv(a) && b.users == a.users && b.sessions == a.sessions && b.resets == a.resets
    requires a.entropy <= b.entropy
    ensures SessionsStep(a, b) && ResetsStep(a, b)
  {
    SessionsMoved(a, b);
    ResetsClosed(a, b);
  }

  lemma Touched(db: Db, sid: nat, now: int)
    requires Inv(db) && sid in db.sessions
    ensures GoodStep(db, Touch(db, sid, now))
  {
    hide Inv, AccountsStep, SessionsStep, ResetsStep, TicketsStep, CatalogueStep;
    var b := Touch(db, sid, now);
    AccountsAlone(db, b);
    SessionsMoved(db, b);
    ResetsClosed(db, b);
    RestAlone(db, b);
  }

  lemma DrawIsNew(db: Db)
    requires Inv(db)
    ensures db.entropy !in db.sessions && db.entropy !in db.resets && db.entropy !in db.tickets
  {}

  lemma SlugsDiffer(db: Db)
    requires Inv(db)
    ensures SlugsUnique(db)
  {}

  lemma AccountFacts(db: Db)
    requires Inv(db)
    ensures forall u: nat, g: nat | (u, g) in db.memberships :: u in db.users
    ensures EmailsFolded(db)
  {}

  lemma SomebodyInstalled(db: Db, user: nat)
    requires Inv(db) && user in db.users
    ensures Installed(db)
  {
    assert db.users != map[];
  }

  /** Sessions may be touched or revoked. */
  ghost predicate SessionsKept(a: Db, b: Db) {
    && b.sessions.Keys == a.sessions.Keys
    && forall sid | sid in a.sessions ::
         && b.sessions[sid].userId == a.sessions[sid].userId
         && b.sessions[sid].expiresAt == a.sessions[sid].expiresAt
         && (a.sessions[sid].revokedAt.Some? ==> b.sessions[sid].revokedAt.Some?)
  }

  /** Reset requests may close. */
  ghost predicate RequestsKept(a: Db, b: Db) {
    && b.resets.Keys == a.resets.Keys
    && forall token | token in a.resets ::
         && b.resets[token].userId == a.resets[token].userId
         && b.resets[token].expiresAt == a.resets[token].expiresAt
         && (b.resets[token].Open() ==> a.resets[token].Open())
  }

  /** One account is rewritten; its sessions and requests may end with it. */
  lemma RewriteKeeps(a: Db, b: Db, t: nat)
    requires Inv(a) && Rewritten(a, b, t) && HasAdmin(b) && SessionsKept(a, b) && RequestsKept(a, b)
    requires forall u: nat, g: nat | (u, g) in b.memberships :: u in a.users
    requires b.tickets == a.tickets && b.groups == a.groups && b.services == a.services && b.rules == a.rules
    ensures GoodStep(a, b)
  {
    hide Inv, AccountsStep, SessionsStep, ResetsStep, TicketsStep, CatalogueStep;
    AccountRewritten(a, b, t);
    SessionsMoved(a, b);
    ResetsClosed(a, b);
    RestAlone(a, b);
  }

  lemma RevokingKeeps(a: Db, b: Db, user: nat, now: int)
    requires b.sessions == a.sessions || b.sessions == RevokeAll(a.sessions, user, now)
    ensures SessionsKept(a, b)
  {}

  lemma SameRequests(a: Db, b: Db)
    requires b.resets == a.resets
    ensures RequestsKept(a, b)
  {}

  lemma SchemaEnsured(db: Db, now: int)
    requires Inv(db)
    ensures AccountsStep(db, SignIn.EnsureSchema(db, now))
    ensures SignIn.EnsureSchema(db, now) == db.(installation := SignIn.EnsureSchema(db, now).installation)
  {
    hide SessionsOk, ResetsOk, TicketsOk, CatalogueOk;
    var b := SignIn.EnsureSchema(db, now);
    if HasAdmin(db) {
      var user :| IsAdmin(db, user);
      assert IsAdmin(b, user);
    }
    assert db.users == map[] ==> forall u: nat, g: nat :: (u, g) !in db.memberships;
  }

  lemma ServiceSaved(db: Db, original: Option<string>, form: ServiceCatalog.Form, hint: nat)
    requires Inv(db)
    ensures CatalogueStep(db, ServiceCatalog.SaveService(db, original, form, hint).db)
  {
    hide Inv, CatalogueStep, Strip;
    var b := ServiceCatalog.SaveService(db, original, form, hint).db;
    if b == db {
      GroupsMoved(db, b);
    } else {
      var edited := ServiceCatalog.Edited(db, original);
      var id := if edited.Some? then edited.value else FirstFree(db.services.Keys, hint);
      if form.status == "enabled" {
        var named := ServiceCatalog.ActiveNamed(db, form.Names());
        assert |named| > 0;
        var g :| g in named;
        assert (id, g) in b.rules;
      }
      SlugsDiffer(db);
      ServiceWritten(db, b, id);
    }
  }

  lemma ResetsFacts(db: Db)
    requires Inv(db)
    ensures ResetsOk(db)
  {}

  lemma ResetOpened(db: Db, b: Db, target: nat, now: int)
    requires Inv(db) && target in db.users && b.users == db.users && b.entropy == db.entropy + 1
    requires b.resets.Keys == db.resets.Keys + {db.entropy} && b.resets[db.entropy].userId == target
    requires forall token | token in db.resets :: token != db.entropy ==>
      b.resets[token] == PasswordReset.Supersede(db.resets, target, now)[token]
    ensures ResetsStep(db, b)
  {
    hide Inv, PasswordReset.Supersede;
    ResetsFacts(db);
    forall t, r | t in b.resets && r in b.resets && b.resets[t].Open() && b.resets[r].Open() && t != r
      ensures b.resets[t].userId != b.resets[r].userId
    {
      if t != db.entropy && r != db.entropy {
        assert db.resets[t].Open() && db.resets[r].Open();
      }
    }
  }

  lemma EnsureSchemaKeeps(db: Db, now: int)
    requires Inv(db)
    ensures GoodStep(db, SignIn.EnsureSchema(db, now))
  {
    hide Inv, AccountsStep, SessionsStep, ResetsStep, TicketsStep, CatalogueStep, SignIn.EnsureSchema;
    var b := SignIn.EnsureSchema(db, now);
    SchemaEnsured(db, now);
    OwnedAlone(db, b);
    RestAlone(db, b);
  }

  lemma BootstrapKeeps(db: Db, email: string, name: string, password: string, hint: nat, now: int)
    requires Inv(db)
    ensures GoodStep(db, SignIn.Bootstrap(db, email, name, password, hint, now).db)
  {
    hide Inv, AccountsStep, SessionsStep, ResetsStep, TicketsStep, CatalogueStep, Strip, CaseFold;
    var b := SignIn.Bootstrap(db, email, name, password, hint, now).db;
    if b == db {
      Unchanged(db);
    } else {
      var id := FirstFree(db.users.Keys, hint);
      assert IsAdmin(b, id);
      AccountFacts(db);
      AccountAdded(db, b, id);
      SessionsMoved(db, b);
      ResetsClosed(db, b);
      RestAlone(db, b);
    }
  }

  lemma CreateUserKeeps(
    db: Db, actor: nat, email: string, name: string, status: string, isAdmin: bool,
    groups: set<nat>, apply: bool, generated: string, hint: nat)
    requires Inv(db)
    ensures GoodStep(db, UserAdmin.CreateUser(db, actor, email, name, status, isAdmin, groups, apply, generated, hint).db)
  {
    hide Inv, AccountsStep, SessionsStep, ResetsStep, TicketsStep, CatalogueStep, Strip, CaseFold;
    var b := UserAdmin.CreateUser(db, actor, email, name, status, isAdmin, groups, apply, generated, hint).db;
    if b == db {
      Unchanged(db);
    } else {
      var id := FirstFree(db.users.Keys, hint);
      assert IsAdmin(b, actor);
      SomebodyInstalled(db, actor);
      AccountAdded(db, b, id);
      SessionsMoved(db, b);
      ResetsClosed(db, b);
      RestAlone(db, b);
    }
  }

  lemma UpdateUserKeeps(
    db: Db, actor: nat, target: nat, expected: nat, email: Option<string>, name: Option<string>,
    isAdmin: Option<bool>, apply: bool, now: int)
    requires Inv(db)
    ensures GoodStep(db, UserAdmin.UpdateUser(db, actor, target, expected, email, name, isAdmin, apply, now).db)
  {
    hide Inv, AccountsStep, SessionsStep, ResetsStep, TicketsStep, CatalogueStep, Strip, CaseFold, SessionsKept, RequestsKept, RevokeAll;
    var b := UserAdmin.UpdateUser(db, actor, target, expected, email, name, isAdmin, apply, now).db;
    if b == db {
      Unchanged(db);
    } else {
      assert IsAdmin(b, actor);
      AccountFacts(db);
      RevokingKeeps(db, b, target, now);
      SameRequests(db, b);
      RewriteKeeps(db, b, target);
    }
  }

  lemma SetUserStatusKeeps(db: Db, actor: nat, target: nat, expected: nat, status: string, apply: bool, now: int)
    requires Inv(db)
    ensures GoodStep(db, UserAdmin.SetUserStatus(db, actor, target, expected, status, apply, now).db)
  {
    hide Inv, AccountsStep, SessionsStep, ResetsStep, TicketsStep, CatalogueStep, SessionsKept, RequestsKept, RevokeAll;
    var b := UserAdmin.SetUserStatus(db, actor, target, expected, status, apply, now).db;
    if b == db {
      Unchanged(db);
    } else {
      assert IsAdmin(b, actor);
      AccountFacts(db);
      RevokingKeeps(db, b, target, now);
      SameRequests(db, b);
      RewriteKeeps(db, b, target);
    }
  }

  lemma DeleteUserKeeps(db: Db, actor: nat, target: nat, expected: nat, apply: bool)
    requires Inv(db)
    ensures GoodStep(db, UserAdmin.DeleteUser(db, actor, target, expected, apply).db)
  {
    hide Inv, AccountsStep, SessionsStep, ResetsStep, TicketsStep, CatalogueStep;
    var b := UserAdmin.DeleteUser(db, actor, target, expected, apply).db;
    if b == db {
      Unchanged(db);
    } else {
      assert IsAdmin(b, actor);
      AccountDropped(db, b, target);
      SessionsMoved(db, b);
      ResetsClosed(db, b);
      RestAlone(db, b);
    }
  }

  lemma CommitMembershipsKeeps(db: Db, change: UserAdmin.Change)
    requires Inv(db)
    ensures GoodStep(db, UserAdmin.CommitMemberships(db, change).db)
  {
    hide Inv, AccountsStep, SessionsStep, ResetsStep, TicketsStep, CatalogueStep;
    var b := UserAdmin.CommitMemberships(db, change).db;
    if b == db {
      Unchanged(db);
    } else {
      AccountFacts(db);
      AdminSurvives(db, b, change.target);
      SameRequests(db, b);
      RewriteKeeps(db, b, change.target);
    }
  }

  lemma CreateGroupKeeps(db: Db, actor: nat, name: string, description: string, apply: bool, hint: nat)
    requires Inv(db)
    ensures GoodStep(db, GroupAdmin.CreateGroup(db, actor, name, description, apply, hint).db)
  {
    hide Inv, AccountsStep, SessionsStep, ResetsStep, TicketsStep, CatalogueStep, Strip, CaseFold, Collapse, GroupAdmin.CleanDescription;
    var b := GroupAdmin.CreateGroup(db, actor, name, description, apply, hint).db;
    if b == db {
      Unchanged(db);
    } else {
      AccountsAlone(db, b);
      OwnedAlone(db, b);
      TicketsAlone(db, b);
      GroupsMoved(db, b);
    }
  }

  lemma UpdateGroupKeeps(
    db: Db, actor: nat, group: nat, expected: nat, name: string, description: string, apply: bool)
    requires Inv(db)
    ensures GoodStep(db, GroupAdmin.UpdateGroup(db, actor, group, expected, name, description, apply).db)
  {
    hide Inv, AccountsStep, SessionsStep, ResetsStep, TicketsStep, CatalogueStep, Strip, CaseFold, Collapse, GroupAdmin.CleanDescription;
    var b := GroupAdmin.UpdateGroup(db, actor, group, expected, name, description, apply).db;
    if b == db {
      Unchanged(db);
    } else {
      AccountsAlone(db, b);
      OwnedAlone(db, b);
      TicketsAlone(db, b);
      GroupsMoved(db, b);
    }
  }

  lemma SetGroupActiveKeeps(db: Db, actor: nat, group: nat, expected: nat, active: bool, apply: bool)
    requires Inv(db)
    ensures GoodStep(db, GroupAdmin.SetGroupActive(db, actor, group, expected, active, apply).db)
  {
    hide Inv, AccountsStep, SessionsStep, ResetsStep, TicketsStep, CatalogueStep;
    var b := GroupAdmin.SetGroupActive(db, actor, group, expected, active, apply).db;
    if b == db {
      Unchanged(db);
    } else {
      AccountsAlone(db, b);
      OwnedAlone(db, b);
      TicketsAlone(db, b);
      GroupsMoved(db, b);
    }
  }

  lemma RemoveGroupKeeps(db: Db, actor: nat, group: nat, expected: nat, apply: bool)
    requires Inv(db)
    ensures GoodStep(db, GroupAdmin.RemoveGroup(db, actor, group, expected, apply).db)
  {
    hide Inv, AccountsStep, SessionsStep, ResetsStep, TicketsStep, CatalogueStep;
    var b := GroupAdmin.RemoveGroup(db, actor, group, expected, apply).db;
    if b == db {
      Unchanged(db);
    } else {
      AccountsAlone(db, b);
      OwnedAlone(db, b);
      TicketsAlone(db, b);
      GroupsMoved(db, b);
    }
  }

  lemma SaveServiceKeeps(db: Db, original: Option<string>, form: ServiceCatalog.Form, hint: nat)
    requires Inv(db)
    ensures GoodStep(db, ServiceCatalog.SaveService(db, original, form, hint).db)
  {
    hide Inv, AccountsStep, SessionsStep, ResetsStep, TicketsStep, CatalogueStep;
    var b := ServiceCatalog.SaveService(db, original, form, hint).db;
    if b == db {
      Unchanged(db);
    } else {
      AccountsAlone(db, b);
      OwnedAlone(db, b);
      TicketsAlone(db, b);
      ServiceSaved(db, original, form, hint);
    }
  }

  lemma WriteVerdictKeeps(db: Db, check: ServiceCatalog.Check, seen: ServiceCatalog.Observation)
    requires Inv(db)
    ensures GoodStep(db, ServiceCatalog.WriteVerdict(db, check, seen))
  {
    hide Inv, AccountsStep, SessionsStep, ResetsStep, TicketsStep, CatalogueStep;
    var b := ServiceCatalog.WriteVerdict(db, check, seen);
    if b == db {
      Unchanged(db);
    } else {
      AccountsAlone(db, b);
      OwnedAlone(db, b);
      TicketsAlone(db, b);
      VerdictWritten(db, b, check.service, ServiceCatalog.VerdictOf(check.policy, seen), check.policy);
    }
  }

  lemma SignInKeeps(db: Db, user: nat, email: string, password: string, ttl: int, now: int)
    requires Inv(db)
    ensures GoodStep(db, SignIn.SignIn(db, user, email, password, ttl, now).db)
  {
    hide Inv, AccountsStep, SessionsStep, ResetsStep, TicketsStep, CatalogueStep, Strip, CaseFold, SqlLower, SignIn.BootstrapRequired;
    var b := SignIn.SignIn(db, user, email, password, ttl, now).db;
    if b == db {
      Unchanged(db);
    } else {
      DrawIsNew(db);
      AccountsAlone(db, b);
      SessionsMoved(db, b);
      ResetsClosed(db, b);
      RestAlone(db, b);
    }
  }

  lemma SignOutKeeps(db: Db, sid: nat, now: int)
    requires Inv(db)
    ensures GoodStep(db, SignIn.SignOut(db, sid, now).db)
  {
    hide Inv, AccountsStep, SessionsStep, ResetsStep, TicketsStep, CatalogueStep;
    var b := SignIn.SignOut(db, sid, now).db;
    AccountsAlone(db, b);
    SessionsMoved(db, b);
    ResetsClosed(db, b);
    RestAlone(db, b);
  }

  lemma AuthorizeCookieKeeps(db: Db, issued: set<Cookie>, cookie: Cookie, service: nat, now: int)
    requires Inv(db)
    ensures GoodStep(db, ProxyAuthorization.AuthorizeCookie(db, issued, cookie, service, now).db)
  {
    hide Inv, AccountsStep, SessionsStep, ResetsStep, TicketsStep, CatalogueStep, GoodStep;
    var b := ProxyAuthorization.AuthorizeCookie(db, issued, cookie, service, now).db;
    if b == db {
      Unchanged(db);
    } else {
      Touched(db, cookie.sessionId, now);
    }
  }

  lemma CheckTicketKeeps(db: Db, r: ProxyAuthorization.Redemption, now: int)
    requires Inv(db) && r.HasRead?
    ensures GoodStep(db, ProxyAuthorization.CheckTicket(db, r, now).db)
  {
    hide Inv, AccountsStep, SessionsStep, ResetsStep, TicketsStep, CatalogueStep, GoodStep;
    var b := ProxyAuthorization.CheckTicket(db, r, now).db;
    if b == db {
      Unchanged(db);
    } else {
      Touched(db, r.sessionId, now);
    }
  }

  lemma ChangePasswordKeeps(db: Db, sid: nat, password: string, now: int)
    requires Inv(db)
    ensures GoodStep(db, SignIn.ChangePassword(db, sid, password, now).db)
  {
    hide Inv, GoodStep, RequestsKept;
    var b := SignIn.ChangePassword(db, sid, password, now).db;
    if b == db {
      Unchanged(db);
    } else if b == Touch(db, sid, now) {
      Touched(db, sid, now);
    } else {
      AccountFacts(db);
      AdminSurvives(db, b, db.sessions[sid].userId);
      SameRequests(db, b);
      RewriteKeeps(db, b, db.sessions[sid].userId);
    }
  }

  lemma EnterServiceKeeps(db: Db, sid: nat, slug: string, ttl: int, now: int)
    requires Inv(db)
    ensures GoodStep(db, ProxyAuthorization.EnterService(db, sid, slug, ttl, now).db)
  {
    hide Inv, AccountsStep, SessionsStep, ResetsStep, TicketsStep, CatalogueStep, MayEnter, ServiceCatalog.SlugOwner;
    var b := ProxyAuthorization.EnterService(db, sid, slug, ttl, now).db;
    if b == db {
      Unchanged(db);
    } else if b.entropy == db.entropy {
      Touched(db, sid, now);
    } else {
      AccountsAlone(db, b);
      SessionsMoved(db, b);
      ResetsClosed(db, b);
      TicketIssued(db, b, b.tickets[db.entropy]);
      GroupsMoved(db, b);
    }
  }

  lemma SetConsumedKeeps(db: Db, r: ProxyAuthorization.Redemption)
    requires Inv(db) && r.HasChecked?
    ensures GoodStep(db, ProxyAuthorization.SetConsumed(db, r).db)
  {
    hide Inv, AccountsStep, SessionsStep, ResetsStep, TicketsStep, CatalogueStep;
    var b := ProxyAuthorization.SetConsumed(db, r).db;
    if b == db {
      Unchanged(db);
    } else {
      AccountsAlone(db, b);
      SessionsMoved(db, b);
      ResetsClosed(db, b);
      TicketConsumed(db, b, r.token, r.at);
      GroupsMoved(db, b);
    }
  }

  lemma InitiateResetKeeps(db: Db, actor: nat, target: nat, expected: nat, ttl: int, now: int)
    requires Inv(db)
    ensures GoodStep(db, PasswordReset.InitiateReset(db, actor, target, expected, ttl, now).db)
  {
    hide Inv, AccountsStep, SessionsStep, ResetsStep, TicketsStep, CatalogueStep;
    var b := PasswordReset.InitiateReset(db, actor, target, expected, ttl, now).db;
    if b == db {
      Unchanged(db);
    } else {
      AccountsAlone(db, b);
      SessionsMoved(db, b);
      ResetOpened(db, b, target, now);
      RestAlone(db, b);
    }
  }

  lemma FailDeliveryKeeps(db: Db, token: nat, now: int)
    requires Inv(db)
    ensures GoodStep(db, PasswordReset.FailDelivery(db, token, now))
  {
    hide Inv, AccountsStep, SessionsStep, ResetsStep, TicketsStep, CatalogueStep;
    var b := PasswordReset.FailDelivery(db, token, now);
    if b == db {
      Unchanged(db);
    } else {
      AccountsAlone(db, b);
      SessionsMoved(db, b);
      ResetsClosed(db, b);
      RestAlone(db, b);
    }
  }

  lemma CompleteResetKeeps(db: Db, token: nat, password: string, now: int)
    requires Inv(db)
    ensures GoodStep(db, PasswordReset.CompleteReset(db, token, password, now).db)
  {
    hide Inv, GoodStep, SessionsKept, RevokeAll;
    var b := PasswordReset.CompleteReset(db, token, password, now).db;
    if b == db {
      Unchanged(db);
    } else {
      var user := db.resets[token].userId;
      AccountFacts(db);
      AdminSurvives(db, b, user);
      RevokingKeeps(db, b, user, now);
      RewriteKeeps(db, b, user);
    }
  }
}

/** The invariant of the whole machine, workers in progress included, and its preservation. */
module PortalSafety {
  import opened Text
  import opened Records
  import opened StoreInvariant
  import opened StoreSteps
  import opened PortalMachine
  import opened CallFrames
  import UserAdmin
  import GroupAdmin
  import ServiceCatalog
  import SignIn
  import PasswordReset
  import ProxyAuthorization

  // ---- workers ----

  /** What a membership change read is still true as long as the revision it read is still the
      revision of the user it read it from. */
  ghost predicate ChangeSound(db: Db, c: UserAdmin.Change) {
    && c.life < db.entropy
    && c.before.Keys <= db.services.Keys
    && (c.target in db.users && db.users[c.target].life == c.life ==>
          && c.expected <= db.users[c.target].revision
          && (c.expected == db.users[c.target].revision ==>
                forall g: nat :: g in c.existing <==> (c.target, g) in db.memberships))
  }

  /** A redeeming request knows the true session and service of its ticket. */
  ghost predicate RedemptionSound(db: Db, r: ProxyAuthorization.Redemption) {
    && r.token in db.tickets
    && db.tickets[r.token].sessionId == r.sessionId
    && db.tickets[r.token].serviceId == r.serviceId
  }

  ghost predicate WorkersSound(w: World) {
    && (forall k | k in w.changes :: ChangeSound(w.db, w.changes[k]))
    && (forall k | k in w.redemptions :: RedemptionSound(w.db, w.redemptions[k]))
    && (forall k | k in w.checks :: w.checks[k].service in w.db.services)
  }

  // ---- redeemed tickets ----

  ghost predicate WinSound(db: Db, win: Win) {
    && win.token in db.tickets
    && db.tickets[win.token].sessionId == win.sessionId
    && db.tickets[win.token].serviceId == win.serviceId
    && db.tickets[win.token].consumedAt.Some?
  }

  predicate Won(w: World, token: nat) {
    exists win | win in w.wins :: win.token == token
  }

  predicate Backed(w: World, cookie: Cookie) {
    exists win | win in w.wins :: win.sessionId == cookie.sessionId && win.serviceId == cookie.serviceId
  }

  ghost predicate WinsSound(w: World) {
    && (forall win | win in w.wins :: WinSound(w.db, win))
    && (forall i, j | 0 <= i < j < |w.wins| :: w.wins[i].token != w.wins[j].token)
    && (forall token | token in w.db.tickets && w.db.tickets[token].consumedAt.Some? :: Won(w, token))
    && (forall cookie | cookie in w.cookies :: Backed(w, cookie))
  }

  ghost predicate Safe(w: World) {
    Inv(w.db) && WorkersSound(w) && WinsSound(w)
  }

  lemma InitialIsSafe(w: World)
    requires Initial(w)
    ensures Safe(w)
  {}

  // ---- one step ----

  lemma CallKeeps(db: Db, cookies: set<Cookie>, call: Call)
    requires Inv(db)
    ensures GoodStep(db, Answer(db, cookies, call).db)
  {
    hide Inv, GoodStep;
    hide UserAdmin.CreateUser, UserAdmin.UpdateUser, UserAdmin.SetUserStatus, UserAdmin.DeleteUser;
    hide GroupAdmin.CreateGroup, GroupAdmin.UpdateGroup, GroupAdmin.SetGroupActive, GroupAdmin.RemoveGroup;
    hide ServiceCatalog.SaveService, SignIn.Bootstrap, SignIn.EnsureSchema, SignIn.SignIn, SignIn.SignOut, SignIn.ChangePassword;
    hide PasswordReset.InitiateReset, PasswordReset.FailDelivery, PasswordReset.CompleteReset;
    hide ProxyAuthorization.EnterService, ProxyAuthorization.AuthorizeCookie;
    match call
    case EnsureSchema(now) => EnsureSchemaKeeps(db, now);
    case Bootstrap(email, name, password, hint, now) => BootstrapKeeps(db, email, name, password, hint, now);
    case CreateUser(actor, email, name, status, isAdmin, groups, apply, generated, hint) =>
      CreateUserKeeps(db, actor, email, name, status, isAdmin, groups, apply, generated, hint);
    case UpdateUser(actor, target, expected, email, name, isAdmin, apply, now) =>
      UpdateUserKeeps(db, actor, target, expected, email, name, isAdmin, apply, now);
    case SetUserStatus(actor, target, expected, status, apply, now) =>
      SetUserStatusKeeps(db, actor, target, expected, status, apply, now);
    case DeleteUser(actor, target, expected, apply) => DeleteUserKeeps(db, actor, target, expected, apply);
    case CreateGroup(actor, name, description, apply, hint) =>
      CreateGroupKeeps(db, actor, name, description, apply, hint);
    case UpdateGroup(actor, group, expected, name, description, apply) =>
      UpdateGroupKeeps(db, actor, group, expected, name, description, apply);
    case SetGroupActive(actor, group, expected, active, apply) =>
      SetGroupActiveKeeps(db, actor, group, expected, active, apply);
    case RemoveGroup(actor, group, expected, apply) => RemoveGroupKeeps(db, actor, group, expected, apply);
    case SaveService(original, form, hint) => SaveServiceKeeps(db, original, form, hint);
    case SignIn(user, email, password, ttl, now) => SignInKeeps(db, user, email, password, ttl, now);
    case SignOut(sid, now) => SignOutKeeps(db, sid, now);
    case ChangePassword(sid, password, now) => ChangePasswordKeeps(db, sid, password, now);
    case EnterService(sid, slug, ttl, now) => EnterServiceKeeps(db, sid, slug, ttl, now);
    case InitiateReset(actor, target, expected, ttl, now) =>
      InitiateResetKeeps(db, actor, target, expected, ttl, now);
    case FailDelivery(token, now) => FailDeliveryKeeps(db, token, now);
    case CompleteReset(token, password, now) => CompleteResetKeeps(db, token, password, now);
    case AuthorizeCookie(cookie, service, now) => AuthorizeCookieKeeps(db, cookies, cookie, service, now);
  }

  lemma StoreKeeps(w: World, op: Op)
    requires Inv(w.db)
    ensures GoodStep(w.db, Step(w, op).db)
  {
    hide Inv, GoodStep, Answer;
    hide UserAdmin.ReadMemberships, UserAdmin.CommitMemberships, ServiceCatalog.ReadForCheck, ServiceCatalog.WriteVerdict;
    hide ProxyAuthorization.ReadTicket, ProxyAuthorization.CheckTicket, ProxyAuthorization.SetConsumed;
    Unchanged(w.db);
    match op
    case Do(call) => CallKeeps(w.db, w.cookies, call);
    case ReadMemberships(worker, actor, target, desired, expected, apply) =>
    case CommitMemberships(worker) =>
      if worker in w.changes { CommitMembershipsKeeps(w.db, w.changes[worker]); }
    case ReadTicket(worker, token, service, now) =>
    case CheckTicket(worker, now) =>
      if worker in w.redemptions && w.redemptions[worker].HasRead? { CheckTicketKeeps(w.db, w.redemptions[worker], now); }
    case SetConsumed(worker) =>
      if worker in w.redemptions && w.redemptions[worker].HasChecked? { SetConsumedKeeps(w.db, w.redemptions[worker]); }
    case ReadForCheck(worker, slug) =>
    case WriteVerdict(worker, seen) =>
      if worker in w.checks { WriteVerdictKeeps(w.db, w.checks[worker], seen); }
  }

  lemma ChangeStaysSound(a: Db, b: Db, c: UserAdmin.Change)
    requires Inv(a) && GoodStep(a, b) && ChangeSound(a, c)
    ensures ChangeSound(b, c)
  {
    hide SessionsStep, ResetsStep, TicketsStep, AccountsOk, SessionsOk, ResetsOk, TicketsOk, CatalogueOk;
    if c.target in b.users && b.users[c.target].life == c.life {
      assert SameLife(a, b, c.target);
    }
  }

  /** Only the compare-and-set of a redemption marks a ticket. */
  ghost predicate ConsumesNothing(a: Db, b: Db) {
    forall token | token in b.tickets && b.tickets[token].consumedAt.Some? ::
      token in a.tickets && a.tickets[token].consumedAt.Some?
  }

  lemma CallConsumesNothing(db: Db, cookies: set<Cookie>, call: Call)
    ensures ConsumesNothing(db, Answer(db, cookies, call).db)
  {
    hide ConsumesNothing;
    hide UserAdmin.CreateUser, UserAdmin.UpdateUser, UserAdmin.SetUserStatus, UserAdmin.DeleteUser;
    hide GroupAdmin.CreateGroup, GroupAdmin.UpdateGroup, GroupAdmin.SetGroupActive, GroupAdmin.RemoveGroup;
    hide ServiceCatalog.SaveService, SignIn.Bootstrap, SignIn.EnsureSchema, SignIn.SignIn, SignIn.SignOut, SignIn.ChangePassword;
    hide PasswordReset.InitiateReset, PasswordReset.FailDelivery, PasswordReset.CompleteReset;
    hide ProxyAuthorization.EnterService, ProxyAuthorization.AuthorizeCookie;
    match call
    case EnterService(sid, slug, ttl, now) => EntryConsumesNothing(db, sid, slug, ttl, now);
    case _ =>
      hide Answer;
      OnlyEntryWritesTickets(db, cookies, call);
      SameTicketsConsumeNothing(db, Answer(db, cookies, call).db);
  }

  lemma EntryConsumesNothing(db: Db, sid: nat, slug: string, ttl: int, now: int)
    ensures ConsumesNothing(db, ProxyAuthorization.EnterService(db, sid, slug, ttl, now).db)
  {
    hide MayEnter, ServiceCatalog.SlugOwner;
  }

  lemma SameTicketsConsumeNothing(a: Db, b: Db)
    requires b.tickets == a.tickets
    ensures ConsumesNothing(a, b)
  {}

  lemma WinsStaySound(w: World, v: World)
    requires WinsSound(w) && TicketsEvolve(w.db, v.db) && ConsumesNothing(w.db, v.db)
    requires v.wins == w.wins && v.cookies == w.cookies
    ensures WinsSound(v)
  {
    forall token | token in v.db.tickets && v.db.tickets[token].consumedAt.Some? ensures Won(v, token) {
      assert Won(w, token);
    }
    forall cookie | cookie in v.cookies ensures Backed(v, cookie) {
      assert Backed(w, cookie);
    }
  }

  lemma NewWinIsSound(w: World, v: World, r: ProxyAuthorization.Redemption)
    requires WinsSound(w) && RedemptionSound(w.db, r) && r.HasChecked?
    requires ProxyAuthorization.SetConsumed(w.db, r) == Txn(Success, v.db)
    requires v.wins == w.wins + [Win(r.token, r.sessionId, r.serviceId)]
    requires v.cookies == w.cookies + {Cookie(r.sessionId, r.serviceId, r.expiresAt)}
    ensures WinsSound(v)
  {
    var win := Win(r.token, r.sessionId, r.serviceId);
    assert win in v.wins;
    forall other | other in v.wins ensures WinSound(v.db, other) {
      if other != win { assert other in w.wins; }
    }
    forall i, j | 0 <= i < j < |v.wins| ensures v.wins[i].token != v.wins[j].token {
      assert WinSound(w.db, w.wins[i]);
    }
    forall token | token in v.db.tickets && v.db.tickets[token].consumedAt.Some? ensures Won(v, token) {
      if token != r.token {
        var prior :| prior in w.wins && prior.token == token;
        assert prior in v.wins;
      }
    }
    forall cookie | cookie in v.cookies ensures Backed(v, cookie) {
      if cookie in w.cookies {
        var prior :| prior in w.wins && prior.sessionId == cookie.sessionId && prior.serviceId == cookie.serviceId;
        assert prior in v.wins;
      }
    }
  }

  lemma WinsStep(w: World, op: Op)
    requires WinsSound(w) && WorkersSound(w) && TicketsEvolve(w.db, Step(w, op).db)
    ensures WinsSound(Step(w, op))
  {
    hide WinsSound, TicketsEvolve, Answer;
    hide UserAdmin.ReadMemberships, UserAdmin.CommitMemberships, ServiceCatalog.ReadForCheck, ServiceCatalog.WriteVerdict;
    hide ProxyAuthorization.ReadTicket, ProxyAuthorization.CheckTicket, ProxyAuthorization.SetConsumed, ConsumesNothing;
    var v := Step(w, op);
    match op
    case Do(call) =>
      CallConsumesNothing(w.db, w.cookies, call);
      WinsStaySound(w, v);
    case SetConsumed(worker) => MarkKeepsWins(w, worker);
    case _ =>
      SameTicketsConsumeNothing(w.db, v.db);
      WinsStaySound(w, v);
  }

  lemma MarkKeepsWins(w: World, worker: nat)
    requires WinsSound(w) && WorkersSound(w) && TicketsEvolve(w.db, Step(w, SetConsumed(worker)).db)
    ensures WinsSound(Step(w, SetConsumed(worker)))
  {
    hide WinsSound, TicketsEvolve, Answer, ConsumesNothing;
    hide UserAdmin.ReadMemberships, UserAdmin.CommitMemberships, ServiceCatalog.ReadForCheck, ServiceCatalog.WriteVerdict;
    hide ProxyAuthorization.ReadTicket, ProxyAuthorization.CheckTicket;
    var v := Step(w, SetConsumed(worker));
    if v.wins == w.wins {
      SameTicketsConsumeNothing(w.db, v.db);
      WinsStaySound(w, v);
    } else {
      NewWinIsSound(w, v, w.redemptions[worker]);
    }
  }

  lemma NewWorkersSound(db: Db, actor: nat, target: nat, desired: set<nat>, expected: nat, apply: bool)
    requires AccountsOk(db)
    ensures var read := UserAdmin.ReadMemberships(db, actor, target, desired, expected, apply);
      read.Pending? ==> ChangeSound(db, read.change)
  {}

  lemma ChangesStep(w: World, op: Op)
    requires Safe(w) && GoodStep(w.db, Step(w, op).db)
    ensures forall k | k in Step(w, op).changes :: ChangeSound(Step(w, op).db, Step(w, op).changes[k])
  {
    hide Inv, GoodStep, ChangeSound, WinsSound, Answer;
    hide UserAdmin.ReadMemberships, UserAdmin.CommitMemberships, ServiceCatalog.ReadForCheck, ServiceCatalog.WriteVerdict;
    hide ProxyAuthorization.ReadTicket, ProxyAuthorization.CheckTicket, ProxyAuthorization.SetConsumed;
    var v := Step(w, op);
    forall k | k in v.changes ensures ChangeSound(v.db, v.changes[k]) {
      if k in w.changes && v.changes[k] == w.changes[k] {
        ChangeStaysSound(w.db, v.db, w.changes[k]);
      } else {
        OneStoreFact(w.db);
        NewWorkersSound(w.db, op.actor, op.target, op.desired, op.expected, op.apply);
      }
    }
  }

  lemma RedemptionsStep(w: World, op: Op)
    requires WorkersSound(w) && TicketsEvolve(w.db, Step(w, op).db)
    ensures forall k | k in Step(w, op).redemptions :: RedemptionSound(Step(w, op).db, Step(w, op).redemptions[k])
  {
    hide ChangeSound, Answer, RedemptionSound;
    hide UserAdmin.ReadMemberships, UserAdmin.CommitMemberships, ServiceCatalog.ReadForCheck, ServiceCatalog.WriteVerdict;
    hide ProxyAuthorization.ReadTicket, ProxyAuthorization.CheckTicket, ProxyAuthorization.SetConsumed;
    var v := Step(w, op);
    forall k | k in v.redemptions ensures RedemptionSound(v.db, v.redemptions[k]) {
      if op.ReadTicket? && k == op.worker && v.redemptions != w.redemptions {
        RedemptionStarts(w.db, op.token, op.service, op.now);
      } else {
        RedemptionStays(w.db, v.db, w.redemptions[k], v.redemptions[k]);
      }
    }
  }

  lemma RedemptionStays(a: Db, b: Db, r: ProxyAuthorization.Redemption, s: ProxyAuthorization.Redemption)
    requires RedemptionSound(a, r) && TicketsEvolve(a, b)
    requires s.token == r.token && s.sessionId == r.sessionId && s.serviceId == r.serviceId
    ensures RedemptionSound(b, s)
  {}

  lemma RedemptionStarts(db: Db, token: nat, service: nat, now: int)
    ensures
      var read := ProxyAuthorization.ReadTicket(db, token, service, now);
      read.Continues? ==> RedemptionSound(db, read.redemption)
  {}

  lemma ChecksStep(w: World, op: Op)
    requires WorkersSound(w) && ServicesStay(w.db, Step(w, op).db)
    ensures forall k | k in Step(w, op).checks :: Step(w, op).checks[k].service in Step(w, op).db.services
  {
    hide ChangeSound, Answer, RedemptionSound;
    hide UserAdmin.ReadMemberships, UserAdmin.CommitMemberships, ServiceCatalog.ReadForCheck, ServiceCatalog.WriteVerdict;
    hide ProxyAuthorization.ReadTicket, ProxyAuthorization.CheckTicket, ProxyAuthorization.SetConsumed;
  }

  lemma OneStoreFact(db: Db)
    requires Inv(db)
    ensures AccountsOk(db)
  {}

  lemma EvolutionFacts(a: Db, b: Db)
    requires GoodStep(a, b)
    ensures TicketsEvolve(a, b) && ServicesStay(a, b)
  {}

  lemma StepKeepsSafe(w: World, op: Op)
    requires Safe(w)
    ensures Safe(Step(w, op)) && GoodStep(w.db, Step(w, op).db)
  {
    hide WinsSound, WorkersSound, AccountsStep, SessionsStep, ResetsStep, TicketsStep, CatalogueStep, Step;
    StoreKeeps(w, op);
    EvolutionFacts(w.db, Step(w, op).db);
    ChangesStep(w, op);
    RedemptionsStep(w, op);
    ChecksStep(w, op);
    WorkersFit(Step(w, op));
    WinsStep(w, op);
    GoodStepKeepsInv(w.db, Step(w, op).db);
  }

  lemma WorkersFit(w: World)
    requires forall k | k in w.changes :: ChangeSound(w.db, w.changes[k])
    requires forall k | k in w.redemptions :: RedemptionSound(w.db, w.redemptions[k])
    requires forall k | k in w.checks :: w.checks[k].service in w.db.services
    ensures WorkersSound(w)
  {}

  lemma GoodStepKeepsInv(a: Db, b: Db)
    requires GoodStep(a, b)
    ensures Inv(b) && Evolves(a, b)
  {}

  // ---- whole runs ----

  /** Every run from a safe state ends in one, and its ends are related as one step's are. */
  lemma {:induction false} RunKeepsSafe(w: World, ops: seq<Op>)
    requires Safe(w)
    ensures Safe(Run(w, ops)) && Evolves(w.db, Run(w, ops).db)
    decreases |ops|
  {
    hide Inv, WinsSound, WorkersSound, Evolves, GoodStep, Step;
    if ops == [] {
      Unchanged(w.db);
      GoodStepKeepsInv(w.db, w.db);
    } else {
      var v := Step(w, ops[0]);
      StepKeepsSafe(w, ops[0]);
      GoodStepKeepsInv(w.db, v.db);
      RunKeepsSafe(v, ops[1..]);
      OneStoreFact(w.db);
      EvolvesTransitive(w.db, v.db, Run(w, ops).db);
    }
  }

  /** Every state the portal can reach is safe. */
  lemma ReachableIsSafe(w: World, ops: seq<Op>)
    requires Initial(w)
    ensures Safe(Run(w, ops))
  {
    InitialIsSafe(w);
    RunKeepsSafe(w, ops);
  }
}

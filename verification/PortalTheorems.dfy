/** What holds of every run of the portal, from an empty store on. */
module PortalTheorems {
  import opened Text
  import opened Records
  import opened StoreInvariant
  import opened StoreSteps
  import opened PortalMachine
  import opened PortalSafety
  import opened CallFrames
  import UserAdmin
  import GroupAdmin
  import ServiceCatalog
  import SignIn
  import PasswordReset
  import ProxyAuthorization

  // ---- lives ----

  /** The step deletes user `u`. */
  ghost predicate Deletes(w: World, op: Op, u: nat) {
    && op.Do? && op.call.DeleteUser? && op.call.apply && op.call.target == u
    && Answer(w.db, w.cookies, op.call).outcome == Success
  }

  ghost predicate NeverDeleted(w: World, ops: seq<Op>, u: nat)
    decreases |ops|
  {
    ops != [] ==> !Deletes(w, ops[0], u) && NeverDeleted(Step(w, ops[0]), ops[1..], u)
  }

  lemma CallLife(db: Db, cookies: set<Cookie>, call: Call, u: nat)
    requires u in db.users
    ensures SameLife(db, Answer(db, cookies, call).db, u) <==>
      !(call.DeleteUser? && call.apply && call.target == u && Answer(db, cookies, call).outcome == Success)
  {
    hide UserAdmin.CreateUser, UserAdmin.UpdateUser, UserAdmin.SetUserStatus, UserAdmin.DeleteUser;
    hide GroupAdmin.CreateGroup, GroupAdmin.UpdateGroup, GroupAdmin.SetGroupActive, GroupAdmin.RemoveGroup;
    hide ServiceCatalog.SaveService, SignIn.Bootstrap, SignIn.EnsureSchema, SignIn.SignIn, SignIn.SignOut, SignIn.ChangePassword;
    hide PasswordReset.InitiateReset, PasswordReset.FailDelivery, PasswordReset.CompleteReset;
    hide ProxyAuthorization.EnterService, ProxyAuthorization.AuthorizeCookie;
    match call
    case CreateUser(actor, email, name, status, isAdmin, groups, apply, generated, hint) =>
      CreationLife(db, actor, email, name, status, isAdmin, groups, apply, generated, hint, u);
    case UpdateUser(actor, target, expected, email, name, isAdmin, apply, now) =>
      UpdateLife(db, actor, target, expected, email, name, isAdmin, apply, now, u);
    case SetUserStatus(actor, target, expected, status, apply, now) =>
      StatusLife(db, actor, target, expected, status, apply, now, u);
    case DeleteUser(actor, target, expected, apply) => DeletionLife(db, actor, target, expected, apply, u);
    case Bootstrap(email, name, password, hint, now) => BootstrapLife(db, email, name, password, hint, now, u);
    case ChangePassword(sid, password, now) => PasswordLife(db, sid, password, now, u);
    case CompleteReset(token, password, now) => ResetLife(db, token, password, now, u);
    case _ =>
      hide Answer;
      OthersKeepUsers(db, cookies, call);
  }

  lemma CreationLife(
    db: Db, actor: nat, email: string, name: string, status: string, isAdmin: bool,
    groups: set<nat>, apply: bool, generated: string, hint: nat, u: nat)
    requires u in db.users
    ensures SameLife(db, UserAdmin.CreateUser(db, actor, email, name, status, isAdmin, groups, apply, generated, hint).db, u)
  {
    hide IsAdmin, EmailTaken, Strip, CaseFold, FirstFree;
  }

  lemma UpdateLife(
    db: Db, actor: nat, target: nat, expected: nat, email: Option<string>, name: Option<string>,
    isAdmin: Option<bool>, apply: bool, now: int, u: nat)
    requires u in db.users
    ensures SameLife(db, UserAdmin.UpdateUser(db, actor, target, expected, email, name, isAdmin, apply, now).db, u)
  {
    hide IsAdmin, EmailTaken, Strip, CaseFold, RevokeAll, UserAdmin.AdminChangeAllowed, UserAdmin.ProfileProblem;
  }

  lemma StatusLife(db: Db, actor: nat, target: nat, expected: nat, status: string, apply: bool, now: int, u: nat)
    requires u in db.users
    ensures SameLife(db, UserAdmin.SetUserStatus(db, actor, target, expected, status, apply, now).db, u)
  {
    hide IsAdmin, RevokeAll, UserAdmin.AdminChangeAllowed;
  }

  lemma DeletionLife(db: Db, actor: nat, target: nat, expected: nat, apply: bool, u: nat)
    requires u in db.users
    ensures
      var txn := UserAdmin.DeleteUser(db, actor, target, expected, apply);
      SameLife(db, txn.db, u) <==> !(apply && target == u && txn.outcome == Success)
  {
    hide IsAdmin, UserAdmin.AdminChangeAllowed;
  }

  lemma BootstrapLife(db: Db, email: string, name: string, password: string, hint: nat, now: int, u: nat)
    requires u in db.users
    ensures SameLife(db, SignIn.Bootstrap(db, email, name, password, hint, now).db, u)
  {
    hide Strip, CaseFold, FirstFree, SignIn.BootstrapProblem;
  }

  lemma PasswordLife(db: Db, sid: nat, password: string, now: int, u: nat)
    requires u in db.users
    ensures SameLife(db, SignIn.ChangePassword(db, sid, password, now).db, u)
  {}

  lemma ResetLife(db: Db, token: nat, password: string, now: int, u: nat)
    requires u in db.users
    ensures SameLife(db, PasswordReset.CompleteReset(db, token, password, now).db, u)
  {
    hide RevokeAll;
  }

  lemma CommitLife(db: Db, change: UserAdmin.Change, u: nat)
    requires u in db.users
    ensures SameLife(db, UserAdmin.CommitMemberships(db, change).db, u)
  {}

  lemma StepLife(w: World, op: Op, u: nat)
    requires u in w.db.users
    ensures SameLife(w.db, Step(w, op).db, u) <==> !Deletes(w, op, u)
  {
    hide Answer;
    hide UserAdmin.ReadMemberships, UserAdmin.CommitMemberships, ServiceCatalog.ReadForCheck, ServiceCatalog.WriteVerdict;
    hide ProxyAuthorization.ReadTicket, ProxyAuthorization.CheckTicket, ProxyAuthorization.SetConsumed;
    match op
    case Do(call) => CallLife(w.db, w.cookies, call, u);
    case CommitMemberships(worker) =>
      if worker in w.changes { CommitLife(w.db, w.changes[worker], u); }
    case _ =>
  }

  /** A user of one point of a run is still the same person at a later point if and only if no
      step between them deleted that user. */
  lemma {:induction false} LifeIff(w: World, ops: seq<Op>, u: nat)
    requires Safe(w) && u in w.db.users
    ensures SameLife(w.db, Run(w, ops).db, u) <==> NeverDeleted(w, ops, u)
    decreases |ops|
  {
    hide Safe, Inv, Step, Deletes;
    if ops != [] {
      var v := Step(w, ops[0]);
      StepLife(w, ops[0], u);
      StepKeepsSafe(w, ops[0]);
      RunKeepsSafe(v, ops[1..]);
      SafeAccounts(w);
      if Deletes(w, ops[0], u) {
        if SameLife(w.db, Run(v, ops[1..]).db, u) {
          LifeBetween(w.db, v.db, Run(v, ops[1..]).db, u);
        }
      } else {
        LifeIff(v, ops[1..], u);
      }
    }
  }

  lemma SafeAccounts(w: World)
    requires Safe(w)
    ensures AccountsOk(w.db)
  {}

  // ---- revisions ----

  /** Until a user is deleted the revision is a version stamp: it never falls, and equal revisions
      at two points of a run mean equal rows and equal membership sets. */
  lemma RevisionIsVersion(start: World, past: seq<Op>, future: seq<Op>, user: nat)
    requires Initial(start) && user in Run(start, past).db.users && NeverDeleted(Run(start, past), future, user)
    ensures
      var a := Run(start, past).db;
      var b := Run(Run(start, past), future).db;
      && user in b.users
      && a.users[user].revision <= b.users[user].revision
      && (a.users[user].revision == b.users[user].revision ==> SameAccount(a, b, user))
  {
    hide Safe, Inv, NeverDeleted, Run;
    ReachableIsSafe(start, past);
    LifeIff(Run(start, past), future, user);
    RunKeepsSafe(Run(start, past), future);
  }

  /** No step changes an account without raising its revision by exactly one. */
  lemma ChangesAddOne(start: World, past: seq<Op>, op: Op, user: nat)
    requires Initial(start)
    ensures
      var w := Run(start, past);
      var v := Step(w, op);
      user in w.db.users && !Deletes(w, op, user) ==>
        && user in v.db.users
        && (SameAccount(w.db, v.db, user) || v.db.users[user].revision == w.db.users[user].revision + 1)
  {
    hide Safe, Step, Run, Deletes;
    ReachableIsSafe(start, past);
    StepKeepsSafe(Run(start, past), op);
    if user in Run(start, past).db.users {
      StepLife(Run(start, past), op, user);
    }
  }

  // ---- installation and recovery ----

  /** Every reachable store is either untouched or has a user who passes the administrator check. */
  lemma AlwaysRecoverable(start: World, ops: seq<Op>)
    requires Initial(start)
    ensures Recoverable(Run(start, ops).db)
  {
    hide WorkersSound, WinsSound;
    ReachableIsSafe(start, ops);
  }

  /** Bootstrapping succeeds exactly while nothing is set up, on valid input. */
  lemma BootstrapSucceedsIff(start: World, ops: seq<Op>, call: Call)
    requires Initial(start) && call.Bootstrap?
    ensures
      var db := Run(start, ops).db;
      Answer(db, {}, call).outcome == Success <==>
        && db.users == map[]
        && Strip(call.displayName) != "" && |call.password| >= SignIn.MIN_PASSWORD && '@' in Strip(call.email)
  {
    hide WorkersSound, WinsSound, Strip;
    ReachableIsSafe(start, ops);
  }

  lemma BootstrapInstalls(db: Db, cookies: set<Cookie>, call: Call)
    requires call.Bootstrap?
    ensures Answer(db, cookies, call).outcome == Success ==> Installed(Answer(db, cookies, call).db)
    ensures Installed(db) ==> Answer(db, cookies, call).outcome != Success && Answer(db, cookies, call).db == db
  {
    hide Strip, CaseFold, FirstFree;
  }

  /** Of any number of bootstraps in a run, whatever happens between them, at most one succeeds. */
  lemma BootstrapAtMostOnce(start: World, past: seq<Op>, first: Call, between: seq<Op>, second: Call)
    requires Initial(start) && first.Bootstrap? && second.Bootstrap?
    requires Answer(Run(start, past).db, Run(start, past).cookies, first).outcome == Success
    ensures
      var v := Run(Step(Run(start, past), Do(first)), between);
      Answer(v.db, v.cookies, second).outcome != Success && Answer(v.db, v.cookies, second).db == v.db
  {
    hide Safe, Inv, Run, Answer;
    var w := Run(start, past);
    var middle := Step(w, Do(first));
    ReachableIsSafe(start, past);
    StepKeepsSafe(w, Do(first));
    BootstrapInstalls(w.db, w.cookies, first);
    RunKeepsSafe(middle, between);
    BootstrapInstalls(Run(middle, between).db, Run(middle, between).cookies, second);
  }

  // ---- sessions, tickets, cookies ----

  /** A session that is gone or revoked. */
  predicate Dead(db: Db, sid: nat) {
    sid < db.entropy && (sid in db.sessions ==> db.sessions[sid].revokedAt.Some?)
  }

  lemma DeadStaysDead(w: World, future: seq<Op>, sid: nat)
    requires Safe(w) && Dead(w.db, sid)
    ensures Dead(Run(w, future).db, sid)
  {
    hide Safe, Inv, Run;
    RunKeepsSafe(w, future);
  }

  /** A dead session opens nothing, at any time: not the portal, not a ticket, not a cookie. */
  lemma DeadOpensNothing(db: Db, sid: nat, now: int)
    requires Dead(db, sid)
    ensures !ValidSession(db, sid, now)
    ensures forall r: ProxyAuthorization.Redemption | r.HasRead? && r.sessionId == sid ::
      ProxyAuthorization.CheckTicket(db, r, now).progress == ProxyAuthorization.Stopped(InvalidSession)
    ensures forall issued: set<Cookie>, cookie: Cookie, service: nat | cookie.sessionId == sid ::
      ProxyAuthorization.AuthorizeCookie(db, issued, cookie, service, now).outcome != Success
    ensures forall slug: string, ttl: int ::
      ProxyAuthorization.EnterService(db, sid, slug, ttl, now) == Txn(InvalidSession, db)
  {}

  /** The user whose sessions a call ends when it goes through: disabled, promoted or demoted,
      given a new password by a reset, or deleted. */
  ghost predicate EndsSessionsOf(db: Db, call: Call, user: nat) {
    match call
    case SetUserStatus(_, target, _, status, apply, _) => apply && status == "disabled" && target == user
    case UpdateUser(_, target, _, _, _, newAdmin, apply, _) =>
      apply && target == user && user in db.users && newAdmin == Some(!db.users[user].isAdmin)
    case CompleteReset(token, _, _) => token in db.resets && db.resets[token].userId == user
    case DeleteUser(_, target, _, apply) => apply && target == user
    case _ => false
  }

  lemma SessionsEnd(db: Db, cookies: set<Cookie>, call: Call, user: nat, sid: nat)
    requires Inv(db) && EndsSessionsOf(db, call, user) && Answer(db, cookies, call).outcome == Success
    requires sid in db.sessions && db.sessions[sid].userId == user
    ensures Dead(Answer(db, cookies, call).db, sid)
  {
    hide AccountsOk, ResetsOk, TicketsOk, CatalogueOk, Strip, CaseFold, IsAdmin;
  }

  /** Once such a call commits, no session the user had ever validates again, whatever follows. */
  lemma RevocationIsPermanent(
    start: World, past: seq<Op>, call: Call, user: nat, sid: nat, future: seq<Op>, now: int)
    requires Initial(start)
    requires var w := Run(start, past);
      && EndsSessionsOf(w.db, call, user) && Answer(w.db, w.cookies, call).outcome == Success
      && sid in w.db.sessions && w.db.sessions[sid].userId == user
    ensures
      var db := Run(Step(Run(start, past), Do(call)), future).db;
      Dead(db, sid) && !ValidSession(db, sid, now)
  {
    hide Safe, Inv, Run, Answer, EndsSessionsOf, Dead;
    var w := Run(start, past);
    ReachableIsSafe(start, past);
    SafeStore(w);
    SessionsEnd(w.db, w.cookies, call, user, sid);
    StepKeepsSafe(w, Do(call));
    DeadStaysDead(Step(w, Do(call)), future, sid);
    DeadOpensNothing(Run(Step(w, Do(call)), future).db, sid, now);
  }

  lemma SafeStore(w: World)
    requires Safe(w)
    ensures Inv(w.db)
  {}

  /** Whoever a service cookie is accepted for has replaced the temporary credential, although
      neither redeeming the ticket nor accepting the cookie looks at the credential. */
  lemma CookiesOnlyForPermanentCredentials(start: World, ops: seq<Op>, cookie: Cookie, service: nat, now: int)
    requires Initial(start)
    ensures
      var w := Run(start, ops);
      Answer(w.db, w.cookies, AuthorizeCookie(cookie, service, now)).outcome == Success ==>
        && cookie.sessionId in w.db.sessions
        && w.db.sessions[cookie.sessionId].userId in w.db.users
        && w.db.users[w.db.sessions[cookie.sessionId].userId].credential == Permanent
        && MayEnter(w.db, w.db.sessions[cookie.sessionId].userId, service)
  {
    hide WorkersSound, Run, AccountsOk, ResetsOk, CatalogueOk;
    var w := Run(start, ops);
    ReachableIsSafe(start, ops);
    if Answer(w.db, w.cookies, AuthorizeCookie(cookie, service, now)).outcome == Success {
      assert Backed(w, cookie);
      var win :| win in w.wins && win.sessionId == cookie.sessionId && win.serviceId == cookie.serviceId;
      assert WinSound(w.db, win);
    }
  }

  /** However redemptions interleave, every ticket is won at most once, its winner holds the
      ticket's own session and service, and the mark is set exactly when somebody won. */
  lemma TicketsAreWonOnce(start: World, ops: seq<Op>)
    requires Initial(start)
    ensures
      var w := Run(start, ops);
      && (forall i, j | 0 <= i < j < |w.wins| :: w.wins[i].token != w.wins[j].token)
      && (forall win | win in w.wins :: WinSound(w.db, win))
      && (forall token | token in w.db.tickets :: w.db.tickets[token].consumedAt.Some? <==> Won(w, token))
  {
    hide Inv, WorkersSound, Run;
    ReachableIsSafe(start, ops);
  }

  ghost predicate TicketsKept(a: Db, b: Db) {
    forall token | token in a.tickets :: token in b.tickets && b.tickets[token] == a.tickets[token]
  }

  lemma TicketsUntouched(db: Db, cookies: set<Cookie>, call: Call)
    requires db.entropy !in db.tickets
    ensures TicketsKept(db, Answer(db, cookies, call).db)
  {
    hide TicketsKept;
    hide UserAdmin.CreateUser, UserAdmin.UpdateUser, UserAdmin.SetUserStatus, UserAdmin.DeleteUser;
    hide GroupAdmin.CreateGroup, GroupAdmin.UpdateGroup, GroupAdmin.SetGroupActive, GroupAdmin.RemoveGroup;
    hide ServiceCatalog.SaveService, SignIn.Bootstrap, SignIn.EnsureSchema, SignIn.SignIn, SignIn.SignOut, SignIn.ChangePassword;
    hide PasswordReset.InitiateReset, PasswordReset.FailDelivery, PasswordReset.CompleteReset;
    hide ProxyAuthorization.EnterService, ProxyAuthorization.AuthorizeCookie;
    match call
    case EnterService(sid, slug, ttl, now) => EntryKeepsTickets(db, sid, slug, ttl, now);
    case _ =>
      hide Answer;
      OnlyEntryWritesTickets(db, cookies, call);
      SameTicketsKept(db, Answer(db, cookies, call).db);
  }

  lemma EntryKeepsTickets(db: Db, sid: nat, slug: string, ttl: int, now: int)
    requires db.entropy !in db.tickets
    ensures TicketsKept(db, ProxyAuthorization.EnterService(db, sid, slug, ttl, now).db)
  {
    hide MayEnter, ServiceCatalog.SlugOwner;
  }

  lemma SameTicketsKept(a: Db, b: Db)
    requires b.tickets == a.tickets
    ensures TicketsKept(a, b)
  {}

  /** `v` gained one winner, of a ticket nobody had won, and marked just that ticket. */
  ghost predicate OneMoreWinner(w: World, v: World) {
    && |v.wins| == |w.wins| + 1 && v.wins[..|w.wins|] == w.wins
    && var token := v.wins[|w.wins|].token;
    && !Won(w, token)
    && v.db.tickets.Keys == w.db.tickets.Keys
    && forall other | other in w.db.tickets && other != token :: v.db.tickets[other] == w.db.tickets[other]
  }

  lemma CompareAndSetHasOneWinner(w: World, worker: nat)
    requires WinsSound(w)
    ensures var v := Step(w, SetConsumed(worker));
      OneMoreWinner(w, v) || (v.wins == w.wins && v.cookies == w.cookies && TicketsKept(w.db, v.db))
  {
    hide Answer, UserAdmin.ReadMemberships, UserAdmin.CommitMemberships, ServiceCatalog.ReadForCheck, ServiceCatalog.WriteVerdict;
    hide ProxyAuthorization.ReadTicket, ProxyAuthorization.CheckTicket;
    var v := Step(w, SetConsumed(worker));
    if v.wins != w.wins {
      forall win | win in w.wins ensures win.token != w.redemptions[worker].token {
        assert WinSound(w.db, win);
      }
    }
  }

  /** Every step either adds one winner and marks that winner's ticket alone, or touches no ticket. */
  lemma LosersMarkNothing(start: World, ops: seq<Op>, op: Op)
    requires Initial(start)
    ensures
      var w := Run(start, ops);
      var v := Step(w, op);
      OneMoreWinner(w, v) || (v.wins == w.wins && v.cookies == w.cookies && TicketsKept(w.db, v.db))
  {
    hide Inv, WinsSound, WorkersSound, Run, OneMoreWinner, Answer;
    hide UserAdmin.ReadMemberships, UserAdmin.CommitMemberships, ServiceCatalog.ReadForCheck, ServiceCatalog.WriteVerdict;
    hide ProxyAuthorization.ReadTicket, ProxyAuthorization.CheckTicket, ProxyAuthorization.SetConsumed;
    var w := Run(start, ops);
    ReachableIsSafe(start, ops);
    match op
    case Do(call) =>
      DrawIsNew(w.db);
      TicketsUntouched(w.db, w.cookies, call);
    case SetConsumed(worker) => CompareAndSetHasOneWinner(w, worker);
    case _ =>
  }
}

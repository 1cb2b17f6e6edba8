/** The portal as one state machine. Every service call is one transaction, except the three
    that really give up control between their reads and their write (membership change, ticket
    redemption, compatibility check) and the reset whose delivery may fail later. Any number of
    those may be in progress, keyed by a worker number, and interleave with everything else. */
module PortalMachine {
  import opened Text
  import opened Records
  import UserAdmin
  import GroupAdmin
  import ServiceCatalog
  import SignIn
  import PasswordReset
  import ProxyAuthorization

  /** A redeemed ticket, with the session and service its winner was given. */
  datatype Win = Win(token: nat, sessionId: nat, serviceId: nat)

  datatype World = World(
    db: Db,
    changes: map<nat, UserAdmin.Change>,
    redemptions: map<nat, ProxyAuthorization.Redemption>,
    checks: map<nat, ServiceCatalog.Check>,
    cookies: set<Cookie>,
    wins: seq<Win>)

  /** Calls that are one transaction. */
  datatype Call =
    | EnsureSchema(now: int)
    | Bootstrap(email: string, displayName: string, password: string, hint: nat, now: int)
    | CreateUser(actor: nat, email: string, displayName: string, status: string, isAdmin: bool,
                 groupIds: set<nat>, apply: bool, generated: string, hint: nat)
    | UpdateUser(actor: nat, target: nat, expected: nat, newEmail: Option<string>, newName: Option<string>,
                 newAdmin: Option<bool>, apply: bool, now: int)
    | SetUserStatus(actor: nat, target: nat, expected: nat, status: string, apply: bool, now: int)
    | DeleteUser(actor: nat, target: nat, expected: nat, apply: bool)
    | CreateGroup(actor: nat, name: string, description: string, apply: bool, hint: nat)
    | UpdateGroup(actor: nat, group: nat, expected: nat, name: string, description: string, apply: bool)
    | SetGroupActive(actor: nat, group: nat, expected: nat, active: bool, apply: bool)
    | RemoveGroup(actor: nat, group: nat, expected: nat, apply: bool)
    | SaveService(original: Option<string>, form: ServiceCatalog.Form, hint: nat)
    | SignIn(user: nat, email: string, password: string, ttl: int, now: int)
    | SignOut(sid: nat, now: int)
    | ChangePassword(sid: nat, password: string, now: int)
    | EnterService(sid: nat, slug: string, ttl: int, now: int)
    | InitiateReset(actor: nat, target: nat, expected: nat, ttl: int, now: int)
    | FailDelivery(token: nat, now: int)
    | CompleteReset(token: nat, password: string, now: int)
    | AuthorizeCookie(cookie: Cookie, service: nat, now: int)

  /** One atomic step of the portal. */
  datatype Op =
    | Do(call: Call)
    | ReadMemberships(worker: nat, actor: nat, target: nat, desired: set<nat>, expected: nat, apply: bool)
    | CommitMemberships(worker: nat)
    | ReadTicket(worker: nat, token: nat, service: nat, now: int)
    | CheckTicket(worker: nat, now: int)
    | SetConsumed(worker: nat)
    | ReadForCheck(worker: nat, slug: string)
    | WriteVerdict(worker: nat, seen: ServiceCatalog.Observation)

  ghost function Answer(db: Db, cookies: set<Cookie>, call: Call): Txn {
    match call
    case EnsureSchema(now) => Txn(Success, SignIn.EnsureSchema(db, now))
    case Bootstrap(email, name, password, hint, now) => SignIn.Bootstrap(db, email, name, password, hint, now)
    case CreateUser(actor, email, name, status, isAdmin, groups, apply, generated, hint) =>
      UserAdmin.CreateUser(db, actor, email, name, status, isAdmin, groups, apply, generated, hint)
    case UpdateUser(actor, target, expected, email, name, isAdmin, apply, now) =>
      UserAdmin.UpdateUser(db, actor, target, expected, email, name, isAdmin, apply, now)
    case SetUserStatus(actor, target, expected, status, apply, now) =>
      UserAdmin.SetUserStatus(db, actor, target, expected, status, apply, now)
    case DeleteUser(actor, target, expected, apply) => UserAdmin.DeleteUser(db, actor, target, expected, apply)
    case CreateGroup(actor, name, description, apply, hint) =>
      GroupAdmin.CreateGroup(db, actor, name, description, apply, hint)
    case UpdateGroup(actor, group, expected, name, description, apply) =>
      GroupAdmin.UpdateGroup(db, actor, group, expected, name, description, apply)
    case SetGroupActive(actor, group, expected, active, apply) =>
      GroupAdmin.SetGroupActive(db, actor, group, expected, active, apply)
    case RemoveGroup(actor, group, expected, apply) => GroupAdmin.RemoveGroup(db, actor, group, expected, apply)
    case SaveService(original, form, hint) => ServiceCatalog.SaveService(db, original, form, hint)
    case SignIn(user, email, password, ttl, now) => SignIn.SignIn(db, user, email, password, ttl, now)
    case SignOut(sid, now) => SignIn.SignOut(db, sid, now)
    case ChangePassword(sid, password, now) => SignIn.ChangePassword(db, sid, password, now)
    case EnterService(sid, slug, ttl, now) => ProxyAuthorization.EnterService(db, sid, slug, ttl, now)
    case InitiateReset(actor, target, expected, ttl, now) =>
      PasswordReset.InitiateReset(db, actor, target, expected, ttl, now)
    case FailDelivery(token, now) => Txn(Success, PasswordReset.FailDelivery(db, token, now))
    case CompleteReset(token, password, now) => PasswordReset.CompleteReset(db, token, password, now)
    case AuthorizeCookie(cookie, service, now) =>
      ProxyAuthorization.AuthorizeCookie(db, cookies, cookie, service, now)
  }

  ghost function Step(w: World, op: Op): World {
    match op
    case Do(call) => w.(db := Answer(w.db, w.cookies, call).db)

    case ReadMemberships(worker, actor, target, desired, expected, apply) =>
      var read := UserAdmin.ReadMemberships(w.db, actor, target, desired, expected, apply);
      if read.Pending? then w.(changes := w.changes[worker := read.change]) else w

    case CommitMemberships(worker) =>
      if worker !in w.changes then w
      else w.(db := UserAdmin.CommitMemberships(w.db, w.changes[worker]).db, changes := w.changes - {worker})

    case ReadTicket(worker, token, service, now) =>
      var progress := ProxyAuthorization.ReadTicket(w.db, token, service, now);
      if progress.Continues? then w.(redemptions := w.redemptions[worker := progress.redemption]) else w

    case CheckTicket(worker, now) =>
      if worker !in w.redemptions || !w.redemptions[worker].HasRead? then w
      else
        var checked := ProxyAuthorization.CheckTicket(w.db, w.redemptions[worker], now);
        w.(db := checked.db, redemptions :=
          if checked.progress.Continues?
          then w.redemptions[worker := checked.progress.redemption]
          else w.redemptions - {worker})

    case SetConsumed(worker) =>
      if worker !in w.redemptions || !w.redemptions[worker].HasChecked? then w
      else
        var r := w.redemptions[worker];
        var txn := ProxyAuthorization.SetConsumed(w.db, r);
        var after := w.(db := txn.db, redemptions := w.redemptions - {worker});
        if txn.outcome == Success
        then after.(
          cookies := w.cookies + {Cookie(r.sessionId, r.serviceId, r.expiresAt)},
          wins := w.wins + [Win(r.token, r.sessionId, r.serviceId)])
        else after

    case ReadForCheck(worker, slug) =>
      var check := ServiceCatalog.ReadForCheck(w.db, slug);
      if check.Some? then w.(checks := w.checks[worker := check.value]) else w

    case WriteVerdict(worker, seen) =>
      if worker !in w.checks then w
      else w.(db := ServiceCatalog.WriteVerdict(w.db, w.checks[worker], seen), checks := w.checks - {worker})
  }

  ghost function Run(w: World, ops: seq<Op>): World
    decreases |ops|
  {
    if ops == [] then w else Run(Step(w, ops[0]), ops[1..])
  }

  /** An empty store, with or without its singleton row. */
  ghost predicate Initial(w: World) {
    && w.db.users == map[] && w.db.groups == map[] && w.db.memberships == {}
    && w.db.services == map[] && w.db.rules == {}
    && w.db.sessions == map[] && w.db.tickets == map[] && w.db.resets == map[]
    && (w.db.installation.None? || !w.db.installation.value.initialized)
    && w.changes == map[] && w.redemptions == map[] && w.checks == map[]
    && w.cookies == {} && w.wins == []
  }

  lemma {:induction false} RunSplits(w: World, first: seq<Op>, rest: seq<Op>)
    ensures Run(w, first + rest) == Run(Run(w, first), rest)
    decreases |first|
  {
    if first == [] {
      assert first + rest == rest;
    } else {
      assert (first + rest)[1..] == first[1..] + rest;
      RunSplits(Step(w, first[0]), first[1..], rest);
    }
  }
}

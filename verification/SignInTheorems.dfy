/** Who can sign in with which password, and when somebody no longer can. */
module SignInTheorems {
  import opened Text
  import opened Records
  import opened StoreInvariant
  import opened PortalMachine
  import opened PortalSafety
  import opened PortalTheorems
  import opened AdministrationTheorems
  import UserAdmin
  import SignIn
  import PasswordReset

  // ---- signing in ----

  /** The row's address, password, status and credential let it sign in. */
  predicate CanSignIn(db: Db, user: nat, email: string, password: string) {
    && user in db.users
    && SqlLower(db.users[user].email) == CaseFold(Strip(email))
    && db.users[user].passwordHash.password == password
    && db.users[user].status == Active
    && (db.users[user].credential == Permanent || db.users[user].credential == Temporary)
  }

  /** In a reachable store somebody signs in exactly when setup is done and some row has the address,
      the password, an active status and a usable credential; it is that row that is signed in. */
  lemma SignInSucceedsIff(start: World, ops: seq<Op>, user: nat, email: string, password: string, ttl: int, now: int)
    requires Initial(start)
    ensures
      var db := Run(start, ops).db;
      var txn := SignIn.SignIn(db, user, email, password, ttl, now);
      && (txn.outcome == Success <==> Installed(db) && CanSignIn(db, user, email, password))
      && (txn.outcome == Success ==>
            txn.db.sessions == db.sessions[db.entropy := Session(user, now + ttl, None, now)])
      && (txn.outcome == SetupPending <==> db.users == map[])
      && (txn.outcome != Success ==> txn.db == db)
  {
    hide WorkersSound, WinsSound, Run, Strip, CaseFold, SqlLower;
    ReachableIsSafe(start, ops);
  }

  // ---- passwords ----

  /** The call replaced the password of `user`. */
  ghost predicate Replaces(db: Db, call: Call, user: nat) {
    match call
    case ChangePassword(sid, _, _) => sid in db.sessions && db.sessions[sid].userId == user
    case CompleteReset(token, _, _) => token in db.resets && db.resets[token].userId == user
    case _ => false
  }

  lemma ReplacedRow(db: Db, cookies: set<Cookie>, call: Call, user: nat)
    requires Replaces(db, call, user) && Answer(db, cookies, call).outcome == Success
    ensures
      var after := Answer(db, cookies, call).db;
      && user in db.users && |call.password| >= 10
      && (call.ChangePassword? ==> db.users[user].credential == Temporary)
      && after.users == db.users[user := db.users[user].(
           passwordHash := PasswordHash(call.password, db.entropy), credential := Permanent,
           revision := db.users[user].revision + 1)]
  {
    hide RevokeAll;
  }

  /** After a changed or reset password, as long as the account is neither changed again nor deleted,
      its owner signs in with that password and with no other one. */
  lemma OnlyTheNewPasswordSignsIn(
    start: World, past: seq<Op>, call: Call, user: nat, future: seq<Op>, email: string, attempt: string, ttl: int, now: int)
    requires Initial(start)
    requires
      var w := Run(start, past);
      var middle := Step(w, Do(call));
      && (call.ChangePassword? || call.CompleteReset?)
      && Replaces(w.db, call, user) && Answer(w.db, w.cookies, call).outcome == Success
      && NeverDeleted(middle, future, user)
      && var db := Run(middle, future).db;
      && user in db.users && user in w.db.users && db.users[user].revision == w.db.users[user].revision + 1
    ensures
      var w := Run(start, past);
      var db := Run(Step(w, Do(call)), future).db;
      && (SignIn.SignIn(db, user, email, attempt, ttl, now).outcome == Success <==>
            && attempt == call.password
            && SqlLower(db.users[user].email) == CaseFold(Strip(email)) && db.users[user].status == Active)
  {
    hide Safe, Inv, Run, NeverDeleted, Answer, Replaces, Strip, CaseFold, SqlLower;
    var w := Run(start, past);
    var middle := Step(w, Do(call));
    ReplacedRow(w.db, w.cookies, call, user);
    ReachableIsSafe(start, past);
    StepKeepsSafe(w, Do(call));
    LifeIff(middle, future, user);
    RunKeepsSafe(middle, future);
    SomebodyCanSignIn(Run(middle, future).db, user);
  }

  lemma SomebodyCanSignIn(db: Db, user: nat)
    requires user in db.users
    ensures db.users != map[]
  {}

  /** The password route replaces exactly a temporary credential, for whoever holds a valid session,
      with a password that is long enough. */
  lemma ChangePasswordSucceedsIff(db: Db, sid: nat, password: string, now: int)
    ensures
      var txn := SignIn.ChangePassword(db, sid, password, now);
      && (txn.outcome == Success <==>
            ValidSession(db, sid, now) && db.users[db.sessions[sid].userId].credential == Temporary && |password| >= 10)
      && (txn.outcome == Success ==> txn.db.sessions == Touch(db, sid, now).sessions)
  {}

  // ---- disabled accounts ----

  /** Nothing is open to a disabled account: no sign-in, no session, no service. */
  lemma DisabledIsLockedOut(db: Db, user: nat)
    requires user in db.users && db.users[user].status == Disabled
    ensures forall email: string, password: string, ttl: int, now: int ::
      SignIn.SignIn(db, user, email, password, ttl, now).outcome != Success
    ensures forall sid: nat, now: int | sid in db.sessions && db.sessions[sid].userId == user :: !ValidSession(db, sid, now)
    ensures forall service: nat :: !MayEnter(db, user, service)
  {
    hide Strip, CaseFold, SqlLower;
  }

  /** Once disabled, a user stays locked out until the account is changed again or deleted. */
  lemma DisablingLocksOut(
    start: World, past: seq<Op>, call: Call, future: seq<Op>, email: string, password: string, ttl: int, sid: nat, service: nat, now: int)
    requires Initial(start) && call.SetUserStatus? && call.apply && call.status == "disabled"
    requires
      var w := Run(start, past);
      && Answer(w.db, w.cookies, call).outcome == Success
      && NeverDeleted(Step(w, Do(call)), future, call.target)
      && var db := Run(Step(w, Do(call)), future).db;
      && call.target in db.users && db.users[call.target].revision == call.expected + 1
    ensures
      var db := Run(Step(Run(start, past), Do(call)), future).db;
      && db.users[call.target].status == Disabled
      && SignIn.SignIn(db, call.target, email, password, ttl, now).outcome != Success
      && (sid in db.sessions && db.sessions[sid].userId == call.target ==> !ValidSession(db, sid, now))
      && !MayEnter(db, call.target, service)
  {
    hide Safe, Inv, Run, NeverDeleted, Answer, MayEnter, SignIn.SignIn;
    var w := Run(start, past);
    var middle := Step(w, Do(call));
    DisabledRow(w.db, w.cookies, call);
    ReachableIsSafe(start, past);
    StepKeepsSafe(w, Do(call));
    LifeIff(middle, future, call.target);
    RunKeepsSafe(middle, future);
    DisabledIsLockedOut(Run(middle, future).db, call.target);
  }

  lemma DisabledRow(db: Db, cookies: set<Cookie>, call: Call)
    requires call.SetUserStatus? && call.apply && call.status == "disabled" && Answer(db, cookies, call).outcome == Success
    ensures
      var after := Answer(db, cookies, call).db;
      && call.target in after.users && after.users[call.target].status == Disabled
      && after.users[call.target].revision == call.expected + 1
  {
    hide IsAdmin, RevokeAll, UserAdmin.AdminChangeAllowed;
  }

  /** Disabling and reactivating straight after restores every access and every column but the
      revision; only the user's sessions are gone for good. */
  lemma ReactivationRestoresAccess(db: Db, actor: nat, target: nat, expected: nat, now: int, later: int)
    requires UserAdmin.SetUserStatus(db, actor, target, expected, "disabled", true, now).outcome == Success
    ensures
      var off := UserAdmin.SetUserStatus(db, actor, target, expected, "disabled", true, now).db;
      var txn := UserAdmin.SetUserStatus(off, actor, target, expected + 1, "active", true, later);
      && txn.outcome == Success && target in db.users
      && txn.db.users == db.users[target := db.users[target].(revision := expected + 2)]
      && Ended(db.sessions, txn.db.sessions, target, now)
      && forall user: nat, service: nat :: MayEnter(txn.db, user, service) <==> MayEnter(db, user, service)
  {
    hide Ended, RevokeAll, MayEnter, UserAdmin.SetUserStatus;
    var off := UserAdmin.SetUserStatus(db, actor, target, expected, "disabled", true, now).db;
    var txn := UserAdmin.SetUserStatus(off, actor, target, expected + 1, "active", true, later);
    DisablingManages(db, actor, target, expected, now);
    SetUserStatusExactly(db, actor, target, expected, "disabled", now);
    SetUserStatusExactly(off, actor, target, expected + 1, "active", later);
    forall user: nat, service: nat ensures MayEnter(txn.db, user, service) <==> MayEnter(db, user, service) {
      SameEntry(db, txn.db, user, service);
    }
  }

  lemma DisablingManages(db: Db, actor: nat, target: nat, expected: nat, now: int)
    requires UserAdmin.SetUserStatus(db, actor, target, expected, "disabled", true, now).outcome == Success
    ensures Manages(db, actor, target, expected) && target != actor && db.users[target].status == Active
  {
    hide RevokeAll;
  }

  lemma SameEntry(a: Db, b: Db, user: nat, service: nat)
    requires b == a.(users := b.users, sessions := b.sessions) && b.users.Keys == a.users.Keys
    requires forall u | u in a.users :: b.users[u].status == a.users[u].status
    ensures MayEnter(b, user, service) <==> MayEnter(a, user, service)
  {
    assert forall g :: Grants(b, g, user, service) <==> Grants(a, g, user, service);
  }

  // ---- signing out ----

  /** Signing out goes through exactly for a session that validates. The session never validates
      again, whatever follows, and no other session is touched. */
  lemma SignedOutForGood(start: World, past: seq<Op>, sid: nat, now: int, future: seq<Op>, t: int)
    requires Initial(start)
    ensures
      var w := Run(start, past);
      var txn := SignIn.SignOut(w.db, sid, now);
      && (txn.outcome == Success <==> ValidSession(w.db, sid, now))
      && (forall other | other in w.db.sessions && other != sid ::
            other in txn.db.sessions && txn.db.sessions[other] == w.db.sessions[other])
      && (txn.outcome == Success ==> !ValidSession(Run(Step(w, Do(Call.SignOut(sid, now))), future).db, sid, t))
  {
    hide Safe, Run, Answer, Dead, Inv;
    var w := Run(start, past);
    ReachableIsSafe(start, past);
    if ValidSession(w.db, sid, now) {
      SignOutKills(w, sid, now);
      StepKeepsSafe(w, Do(Call.SignOut(sid, now)));
      DeadStaysDead(Step(w, Do(Call.SignOut(sid, now))), future, sid);
      DeadOpensNothing(Run(Step(w, Do(Call.SignOut(sid, now))), future).db, sid, t);
    }
  }

  lemma SignOutKills(w: World, sid: nat, now: int)
    requires Safe(w) && ValidSession(w.db, sid, now)
    ensures Dead(Step(w, Do(Call.SignOut(sid, now))).db, sid)
  {
    hide WorkersSound, WinsSound, AccountsOk, ResetsOk, TicketsOk, CatalogueOk;
  }

  // ---- setting up ----

  /** The founder's row: what was typed in, an active administrator with a permanent credential. */
  lemma BootstrapStores(db: Db, email: string, name: string, password: string, hint: nat, now: int)
    requires SignIn.Bootstrap(db, email, name, password, hint, now).outcome == Success
    ensures
      var after := SignIn.Bootstrap(db, email, name, password, hint, now).db;
      && db.users == map[]
      && after.users == map[hint := User(
           Strip(email), CaseFold(Strip(email)), Strip(name), PasswordHash(password, db.entropy),
           Active, Permanent, true, 1, db.entropy)]
      && Installed(after)
      && (db.installation.None? ==> after.installation == Some(Installation(true, 2, Some(now))))
      && (db.installation.Some? ==>
            && after.installation.value.revision == db.installation.value.revision + 1
            && after.installation.value.initializedAt ==
                 if db.installation.value.initializedAt.None? then Some(now) else db.installation.value.initializedAt)
  {
    hide Strip, CaseFold;
  }

  /** Opening the store marks it initialized exactly when it already was or has users, touches nothing
      else, and doing so again changes nothing. */
  lemma EnsureSchemaExactly(db: Db, now: int, later: int)
    ensures
      var after := SignIn.EnsureSchema(db, now);
      && after == db.(installation := after.installation)
      && (Installed(after) <==> Installed(db) || db.users != map[])
      && (Installed(db) ==> after == db)
      && SignIn.EnsureSchema(after, later) == after
  {}
}

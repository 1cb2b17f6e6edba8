/** What the account calls mean to the people who use them: previews, refusals, passwords and
    the address one signs in with. */
module AccountTheorems {
  import opened Text
  import opened Records
  import opened StoreInvariant
  import opened StoreSteps
  import opened PortalMachine
  import opened PortalSafety
  import opened PortalTheorems
  import UserAdmin
  import GroupAdmin
  import ServiceCatalog
  import SignIn
  import PasswordReset

  // ---- previews and refusals ----

  /** The call with its `apply` flag set as given; calls without the flag stay as they are. */
  function WithApply(call: Call, flag: bool): Call {
    match call
    case CreateUser(actor, email, name, status, isAdmin, groups, _, generated, hint) =>
      CreateUser(actor, email, name, status, isAdmin, groups, flag, generated, hint)
    case UpdateUser(actor, target, expected, email, name, isAdmin, _, now) =>
      UpdateUser(actor, target, expected, email, name, isAdmin, flag, now)
    case SetUserStatus(actor, target, expected, status, _, now) => SetUserStatus(actor, target, expected, status, flag, now)
    case DeleteUser(actor, target, expected, _) => DeleteUser(actor, target, expected, flag)
    case CreateGroup(actor, name, description, _, hint) => CreateGroup(actor, name, description, flag, hint)
    case UpdateGroup(actor, group, expected, name, description, _) =>
      UpdateGroup(actor, group, expected, name, description, flag)
    case SetGroupActive(actor, group, expected, active, _) => SetGroupActive(actor, group, expected, active, flag)
    case RemoveGroup(actor, group, expected, _) => RemoveGroup(actor, group, expected, flag)
    case _ => call
  }

  predicate Previewable(call: Call) {
    || call.CreateUser? || call.UpdateUser? || call.SetUserStatus? || call.DeleteUser?
    || call.CreateGroup? || call.UpdateGroup? || call.SetGroupActive? || call.RemoveGroup?
  }

  /** The profile update asks for an address somebody else has. */
  predicate AddressCollides(db: Db, call: Call) {
    && call.UpdateUser? && call.target in db.users
    && call.newEmail.Some? && Strip(call.newEmail.value) != db.users[call.target].email
    && EmailTaken(db, CaseFold(Strip(call.newEmail.value)), Some(call.target))
  }

  /** A preview changes nothing, and answers what applying would answer unless it answers yes to
      a profile update whose new address is taken: that one is only refused when applied. */
  lemma PreviewPredictsApplyIff(db: Db, cookies: set<Cookie>, call: Call)
    requires Previewable(call)
    ensures
      var preview := Answer(db, cookies, WithApply(call, false));
      var applied := Answer(db, cookies, WithApply(call, true));
      && preview.db == db
      && (applied.outcome == preview.outcome <==> !(preview.outcome == Success && AddressCollides(db, call)))
      && (applied.outcome != preview.outcome ==> applied == Txn(Conflict, db))
  {
    hide IsAdmin, Strip, CaseFold, RevokeAll, EmailTaken, UserAdmin.AdminChangeAllowed;
    hide GroupAdmin.GroupProblem, GroupAdmin.AdminOutside, GroupAdmin.HasDependencies, GroupAdmin.NameTaken, GroupAdmin.NameProblem;
    if call.UpdateUser? && call.target in db.users {
      RequestedAddress(db.users[call.target], call.newEmail, call.newName, call.newAdmin);
    }
  }

  lemma RequestedAddress(row: User, email: Option<string>, name: Option<string>, isAdmin: Option<bool>)
    ensures
      var wanted := UserAdmin.ProfileRow(row, email, name, isAdmin);
      && (wanted.email != row.email <==> email.Some? && Strip(email.value) != row.email)
      && (wanted.email != row.email ==> wanted.normalizedEmail == CaseFold(Strip(email.value)))
  {}

  /** The two stores differ at most in when sessions were last seen. */
  ghost predicate SameButSeen(a: Db, b: Db) {
    && b == a.(sessions := b.sessions)
    && b.sessions.Keys == a.sessions.Keys
    && forall sid | sid in a.sessions :: b.sessions[sid] == a.sessions[sid].(lastSeenAt := b.sessions[sid].lastSeenAt)
  }

  /** A call that does not succeed leaves nothing behind but a session's last-seen time. */
  lemma RefusalsChangeNothing(db: Db, cookies: set<Cookie>, call: Call)
    requires Answer(db, cookies, call).outcome != Success
    ensures SameButSeen(db, Answer(db, cookies, call).db)
  {
    hide IsAdmin, EmailTaken, MayEnter, Strip, CaseFold, SqlLower, RevokeAll, SameButSeen;
    hide UserAdmin.TargetProblem, UserAdmin.AdminChangeAllowed, UserAdmin.ProfileProblem, UserAdmin.ProfileRow;
    hide GroupAdmin.GroupProblem, GroupAdmin.AdminOutside, GroupAdmin.HasDependencies, GroupAdmin.NameTaken, GroupAdmin.NameProblem;
    hide ServiceCatalog.SaveProblem, ServiceCatalog.Edited, ServiceCatalog.Written, ServiceCatalog.SlugOwner;
    hide SignIn.BootstrapProblem, SignIn.BootstrapRequired, PasswordReset.Supersede, PasswordReset.Usable;
    var after := Answer(db, cookies, call).db;
    if after == db {
      SeenNothing(db);
    } else {
      var sid := if call.AuthorizeCookie? then call.cookie.sessionId else call.sid;
      var now := call.now;
      assert after == Touch(db, sid, now);
      SeenOnce(db, sid, now);
    }
  }

  lemma SeenNothing(db: Db)
    ensures SameButSeen(db, db)
  {}

  lemma SeenOnce(db: Db, sid: nat, now: int)
    requires sid in db.sessions
    ensures SameButSeen(db, Touch(db, sid, now))
  {}

  // ---- signing in ----

  /** A successful sign-in opens one new session, valid exactly until it expires, and leaves the
      validity of every other session alone. */
  lemma SignInOpensOneSession(start: World, ops: seq<Op>, call: Call, sid: nat, t: int)
    requires Initial(start) && call.SignIn?
    requires var w := Run(start, ops); Answer(w.db, w.cookies, call).outcome == Success
    ensures
      var db := Run(start, ops).db;
      var after := Answer(db, Run(start, ops).cookies, call).db;
      && db.entropy !in db.sessions && after.sessions[db.entropy].userId == call.user
      && (ValidSession(after, sid, t) <==>
            if sid == db.entropy then t < call.now + call.ttl else ValidSession(db, sid, t))
  {
    hide WorkersSound, WinsSound, Run, Inv, SqlLower, CaseFold, Strip;
    ReachableIsSafe(start, ops);
    DrawIsNew(Run(start, ops).db);
  }

  lemma PasswordReplaced(db: Db, cookies: set<Cookie>, call: Call)
    requires call.ChangePassword? && Answer(db, cookies, call).outcome == Success
    ensures
      var after := Answer(db, cookies, call).db;
      && |call.password| >= SignIn.MIN_PASSWORD && call.sid in db.sessions
      && var user := db.sessions[call.sid].userId;
      && user in db.users && db.users[user].credential == Temporary
      && user in after.users && after.users[user].credential == Permanent
      && after.users[user].revision == db.users[user].revision + 1
      && SignIn.Verifies(after.users[user].passwordHash, call.password)
  {}

  /** A temporary password is replaced for good: as long as the user is not deleted the credential
      stays permanent, no session replaces it this way again, and until the account changes the
      password is the one chosen. */
  lemma TemporaryPasswordReplacedForGood(start: World, past: seq<Op>, call: Call, future: seq<Op>, sid: nat, again: string, t: int)
    requires Initial(start) && call.ChangePassword?
    requires
      var w := Run(start, past);
      && Answer(w.db, w.cookies, call).outcome == Success
      && NeverDeleted(Step(w, Do(call)), future, w.db.sessions[call.sid].userId)
    ensures
      var w := Run(start, past);
      var user := w.db.sessions[call.sid].userId;
      var db := Run(Step(w, Do(call)), future).db;
      && w.db.users[user].credential == Temporary && |call.password| >= SignIn.MIN_PASSWORD
      && user in db.users && db.users[user].credential == Permanent
      && (sid in db.sessions && db.sessions[sid].userId == user ==>
            SignIn.ChangePassword(db, sid, again, t).outcome != Success)
      && (db.users[user].revision == w.db.users[user].revision + 1 ==>
            SignIn.Verifies(db.users[user].passwordHash, call.password))
  {
    hide Safe, Inv, Run, NeverDeleted, Answer;
    var w := Run(start, past);
    var middle := Step(w, Do(call));
    PasswordReplaced(w.db, w.cookies, call);
    ReachableIsSafe(start, past);
    StepKeepsSafe(w, Do(call));
    LifeIff(middle, future, w.db.sessions[call.sid].userId);
    RunKeepsSafe(middle, future);
  }

  // ---- the address one signs in with ----

  predicate Latin1(s: string) {
    forall i | 0 <= i < |s| :: s[i] <= '\U{ff}'
  }

  /** Characters `casefold` changes and the `lower()` of the database does not. */
  predicate FoldsOtherwise(c: char) {
    ('\U{c0}' <= c <= '\U{de}' && c != '\U{d7}') || c == '\U{df}' || c == '\U{b5}'
  }

  lemma {:induction false} LowerIsFoldIff(s: string)
    ensures SqlLower(s) == CaseFold(s) <==> forall i | 0 <= i < |s| :: !FoldsOtherwise(s[i])
    decreases |s|
  {
    if s != "" {
      var lower := if 'A' <= s[0] <= 'Z' then (s[0] as int + 32) as char else s[0];
      assert SqlLower(s) == [lower] + SqlLower(s[1..]);
      LowerIsFoldIff(s[1..]);
      if FoldsOtherwise(s[0]) {
        assert CaseFold(s)[0] == FoldChar(s[0])[0] != lower;
      } else {
        assert FoldChar(s[0]) == [lower];
        assert SqlLower(s)[1..] == SqlLower(s[1..]) && CaseFold(s)[1..] == CaseFold(s[1..]);
        assert forall i | 1 <= i < |s| :: s[i] == s[1..][i - 1];
      }
    }
  }

  /** Addresses are unique by their fold, so the address query has at most one answer. */
  lemma QueryHasOneAnswer(db: Db, email: string, one: nat, two: nat)
    requires EmailsFolded(db) && EmailsUnique(db) && SignIn.QueryReturns(db, email, one) && SignIn.QueryReturns(db, email, two)
    ensures one == two
  {
    hide CaseFold, SqlLower, Strip;
    FoldOfLower(db.users[one].email);
    FoldOfLower(db.users[two].email);
  }

  lemma CreatedRow(db: Db, call: Call)
    requires call.CreateUser? && call.apply && call.status == "active" && Answer(db, {}, call).outcome == Success
    ensures
      var id := FirstFree(db.users.Keys, call.hint);
      var after := Answer(db, {}, call).db;
      && id in after.users
      && after.users[id].email == Strip(call.email) && after.users[id].passwordHash.password == call.generated
      && after.users[id].status == Active && after.users[id].credential == Temporary
  {
    hide Strip, CaseFold, IsAdmin, EmailTaken, FirstFree;
  }

  /** In a reachable store a new account's address finds the account, and its generated password
      signs in, if and only if the address holds none of those characters; nobody else is ever
      found by it, and nobody else signed in. */
  lemma NewAccountSignsInIff(start: World, ops: seq<Op>, call: Call, ttl: int, now: int, user: nat)
    requires Initial(start) && call.CreateUser? && call.apply && call.status == "active" && Latin1(call.email)
    requires Answer(Run(start, ops).db, {}, call).outcome == Success
    ensures
      var db := Run(start, ops).db;
      var after := Answer(db, {}, call).db;
      var id := FirstFree(db.users.Keys, call.hint);
      var email := Strip(call.email);
      var found := user == id && forall i | 0 <= i < |email| :: !FoldsOtherwise(email[i]);
      && (SignIn.QueryReturns(after, call.email, user) <==> found)
      && (SignIn.SignIn(after, user, call.email, call.generated, ttl, now).outcome == Success <==> found)
  {
    hide Inv, GoodStep, WorkersSound, WinsSound, Run, Strip, CaseFold, SqlLower, FoldsOtherwise, Latin1, Answer, FirstFree;
    ReachableIsSafe(start, ops);
    var db := Run(start, ops).db;
    var after := Answer(db, {}, call).db;
    CallKeeps(db, {}, call);
    GoodStepKeepsInv(db, after);
    LowerIsFoldIff(Strip(call.email));
    CreatedRow(db, call);
    FoldedRows(after);
    if SignIn.QueryReturns(after, call.email, user) {
      QueryFindsFold(after, call.email, user, FirstFree(db.users.Keys, call.hint));
    }
  }

  lemma FoldedRows(db: Db)
    requires Inv(db)
    ensures EmailsFolded(db) && EmailsUnique(db)
  {}

  /** Whoever the query finds by the address of `owner` is `owner`. */
  lemma QueryFindsFold(db: Db, email: string, user: nat, owner: nat)
    requires EmailsFolded(db) && EmailsUnique(db) && SignIn.QueryReturns(db, email, user)
    requires owner in db.users && db.users[owner].email == Strip(email)
    ensures user == owner
  {
    hide CaseFold, SqlLower, Strip;
    FoldOfLower(db.users[user].email);
    FoldOfFold(Strip(email));
  }
}

/** Memberships over whole runs: nothing inherited, nothing lost, and the one race that can
    leave a membership of a group that no longer exists. */
module MembershipTheorems {
  import opened Text
  import opened Records
  import opened StoreInvariant
  import opened PortalMachine
  import opened PortalSafety
  import opened CallFrames
  import opened PortalTheorems
  import opened Access
  import UserAdmin
  import GroupAdmin
  import ServiceCatalog
  import SignIn
  import PasswordReset
  import ProxyAuthorization

  // ---- ownership ----

  /** In every reachable store, what belongs to a user belongs to an existing one, and rules join
      existing services to existing groups. */
  lemma OwnersAlwaysExist(start: World, ops: seq<Op>)
    requires Initial(start)
    ensures
      var db := Run(start, ops).db;
      && (forall u: nat, g: nat | (u, g) in db.memberships :: u in db.users)
      && (forall sid | sid in db.sessions :: db.sessions[sid].userId in db.users)
      && (forall token | token in db.resets :: db.resets[token].userId in db.users)
      && (forall s: nat, g: nat | (s, g) in db.rules :: s in db.services && g in db.groups)
  {
    hide WorkersSound, WinsSound, Run;
    ReachableIsSafe(start, ops);
  }

  /** A created user starts with the requested groups and nothing else, also when its id belonged
      to somebody deleted before. */
  lemma NothingIsInherited(start: World, ops: seq<Op>, call: Call)
    requires Initial(start) && call.CreateUser? && call.apply
    requires var w := Run(start, ops); Answer(w.db, w.cookies, call).outcome == Success
    ensures
      var w := Run(start, ops);
      var after := Answer(w.db, w.cookies, call).db;
      var id := FirstFree(w.db.users.Keys, call.hint);
      && after.users.Keys == w.db.users.Keys + {id} && id !in w.db.users
      && after.users[id].credential == Temporary && after.users[id].revision == 1
      && GroupsOf(after.memberships, id) == call.groupIds
      && (forall sid | sid in after.sessions :: after.sessions[sid].userId != id)
      && (forall token | token in after.resets :: after.resets[token].userId != id)
  {
    hide WorkersSound, WinsSound, Run, TicketsOk, CatalogueOk, Strip, CaseFold;
    ReachableIsSafe(start, ops);
  }

  // ---- no lost update ----

  /** A membership change is read, anything happens in the gap, the compare-and-set hits a row. It
      lands on the user it was read from if and only if that user was not deleted in the gap; then
      the stored set is still the one read, so the reported additions and removals are exactly the
      committed difference, and nobody else's rows move. */
  lemma NoLostUpdate(start: World, past: seq<Op>, actor: nat, target: nat, desired: set<nat>, expected: nat, gap: seq<Op>)
    requires Initial(start)
    requires
      var w := Run(start, past);
      var read := UserAdmin.ReadMemberships(w.db, actor, target, desired, expected, true);
      read.Pending? && UserAdmin.CommitMemberships(Run(w, gap).db, read.change).outcome == Success
    ensures
      var w := Run(start, past);
      var change := UserAdmin.ReadMemberships(w.db, actor, target, desired, expected, true).change;
      var db := Run(w, gap).db;
      var after := UserAdmin.CommitMemberships(db, change).db;
      && (SameLife(w.db, after, target) <==> NeverDeleted(w, gap, target))
      && (NeverDeleted(w, gap, target) ==>
            && GroupsOf(db.memberships, target) == change.existing
            && GroupsOf(after.memberships, target) == desired
            && change.Added() == GroupsOf(after.memberships, target) - GroupsOf(db.memberships, target)
            && change.Removed() == GroupsOf(db.memberships, target) - GroupsOf(after.memberships, target)
            && after.users[target] == w.db.users[target].(revision := expected + 1))
      && (forall u: nat, g: nat | u != target :: (u, g) in after.memberships <==> (u, g) in db.memberships)
  {
    hide Inv, Safe, Run, NeverDeleted, IsAdmin, AccessOf;
    var w := Run(start, past);
    ReachableIsSafe(start, past);
    RunKeepsSafe(w, gap);
    LifeIff(w, gap, target);
  }

  /** Of all changes that expect one revision of one user, at most one ever commits while that
      user is not deleted. */
  lemma OneSuccessPerRevision(start: World, past: seq<Op>, first: nat, future: seq<Op>, second: UserAdmin.Change)
    requires Initial(start)
    requires
      var w := Run(start, past);
      && first in w.changes && UserAdmin.CommitMemberships(w.db, w.changes[first]).outcome == Success
      && second.target == w.changes[first].target && second.expected == w.changes[first].expected
      && NeverDeleted(Step(w, CommitMemberships(first)), future, second.target)
    ensures
      var v := Run(Step(Run(start, past), CommitMemberships(first)), future);
      UserAdmin.CommitMemberships(v.db, second) == Txn(Conflict, v.db)
  {
    hide Safe, Inv, Run, NeverDeleted;
    var w := Run(start, past);
    var middle := Step(w, CommitMemberships(first));
    ReachableIsSafe(start, past);
    StepKeepsSafe(w, CommitMemberships(first));
    LifeIff(middle, future, second.target);
    RunKeepsSafe(middle, future);
  }

  // ---- memberships of groups that exist ----

  ghost predicate GroupRefs(db: Db) {
    forall u: nat, g: nat | (u, g) in db.memberships :: g in db.groups
  }

  /** The step commits a membership change that names a group removed since it was read. */
  ghost predicate CommitsMissingGroup(w: World, op: Op) {
    && op.CommitMemberships? && op.worker in w.changes
    && UserAdmin.CommitMemberships(w.db, w.changes[op.worker]).outcome == Success
    && !(w.changes[op.worker].desired <= w.db.groups.Keys)
  }

  lemma CallKeepsGroupRefs(db: Db, cookies: set<Cookie>, call: Call)
    requires GroupRefs(db)
    ensures GroupRefs(Answer(db, cookies, call).db)
  {
    hide GroupRefs;
    hide UserAdmin.CreateUser, UserAdmin.UpdateUser, UserAdmin.SetUserStatus, UserAdmin.DeleteUser;
    hide GroupAdmin.CreateGroup, GroupAdmin.UpdateGroup, GroupAdmin.SetGroupActive, GroupAdmin.RemoveGroup;
    hide ServiceCatalog.SaveService, SignIn.Bootstrap, SignIn.EnsureSchema, SignIn.SignIn, SignIn.SignOut, SignIn.ChangePassword;
    hide PasswordReset.InitiateReset, PasswordReset.FailDelivery, PasswordReset.CompleteReset;
    hide ProxyAuthorization.EnterService, ProxyAuthorization.AuthorizeCookie;
    match call
    case CreateUser(actor, email, name, status, isAdmin, groups, apply, generated, hint) =>
      CreatedUserRefs(db, actor, email, name, status, isAdmin, groups, apply, generated, hint);
    case DeleteUser(actor, target, expected, apply) => DeletedUserRefs(db, actor, target, expected, apply);
    case CreateGroup(actor, name, description, apply, hint) => CreatedGroupRefs(db, actor, name, description, apply, hint);
    case UpdateGroup(actor, group, expected, name, description, apply) =>
      UpdatedGroupRefs(db, actor, group, expected, name, description, apply);
    case SetGroupActive(actor, group, expected, active, apply) =>
      SwitchedGroupRefs(db, actor, group, expected, active, apply);
    case RemoveGroup(actor, group, expected, apply) => RemovedGroupRefs(db, actor, group, expected, apply);
    case _ =>
      hide Answer;
      OthersKeepMembers(db, cookies, call);
      SameRefs(db, Answer(db, cookies, call).db);
  }

  lemma SameRefs(a: Db, b: Db)
    requires GroupRefs(a) && b.memberships == a.memberships && a.groups.Keys <= b.groups.Keys
    ensures GroupRefs(b)
  {}

  lemma CreatedUserRefs(
    db: Db, actor: nat, email: string, name: string, status: string, isAdmin: bool,
    groups: set<nat>, apply: bool, generated: string, hint: nat)
    requires GroupRefs(db)
    ensures GroupRefs(UserAdmin.CreateUser(db, actor, email, name, status, isAdmin, groups, apply, generated, hint).db)
  {
    hide IsAdmin, EmailTaken, Strip, CaseFold, FirstFree;
  }

  lemma DeletedUserRefs(db: Db, actor: nat, target: nat, expected: nat, apply: bool)
    requires GroupRefs(db)
    ensures GroupRefs(UserAdmin.DeleteUser(db, actor, target, expected, apply).db)
  {
    hide IsAdmin, UserAdmin.AdminChangeAllowed;
  }

  lemma CreatedGroupRefs(db: Db, actor: nat, name: string, description: string, apply: bool, hint: nat)
    requires GroupRefs(db)
    ensures GroupRefs(GroupAdmin.CreateGroup(db, actor, name, description, apply, hint).db)
  {
    hide IsAdmin, Strip, CaseFold, Collapse, GroupAdmin.NameTaken, GroupAdmin.CleanDescription, FirstFree;
  }

  lemma UpdatedGroupRefs(
    db: Db, actor: nat, group: nat, expected: nat, name: string, description: string, apply: bool)
    requires GroupRefs(db)
    ensures GroupRefs(GroupAdmin.UpdateGroup(db, actor, group, expected, name, description, apply).db)
  {
    hide IsAdmin, Strip, CaseFold, Collapse, GroupAdmin.NameTaken, GroupAdmin.CleanDescription;
  }

  lemma SwitchedGroupRefs(db: Db, actor: nat, group: nat, expected: nat, active: bool, apply: bool)
    requires GroupRefs(db)
    ensures GroupRefs(GroupAdmin.SetGroupActive(db, actor, group, expected, active, apply).db)
  {
    hide IsAdmin, GroupAdmin.AdminOutside;
  }

  lemma RemovedGroupRefs(db: Db, actor: nat, group: nat, expected: nat, apply: bool)
    requires GroupRefs(db)
    ensures GroupRefs(GroupAdmin.RemoveGroup(db, actor, group, expected, apply).db)
  {
    hide IsAdmin, GroupAdmin.AdminOutside;
  }

  /** One step breaks the references exactly when it commits a removed group. */
  lemma GroupRefsStep(w: World, op: Op)
    requires GroupRefs(w.db)
    ensures GroupRefs(Step(w, op).db) <==> !CommitsMissingGroup(w, op)
  {
    hide Answer;
    match op
    case Do(call) => CallKeepsGroupRefs(w.db, w.cookies, call);
    case CommitMemberships(worker) =>
      if CommitsMissingGroup(w, op) {
        var g :| g in w.changes[worker].desired && g !in w.db.groups;
        assert (w.changes[worker].target, g) in Step(w, op).db.memberships;
      }
    case _ =>
  }

  ghost predicate AlwaysGroupRefs(w: World, ops: seq<Op>)
    decreases |ops|
  {
    GroupRefs(w.db) && (ops != [] ==> AlwaysGroupRefs(Step(w, ops[0]), ops[1..]))
  }

  ghost predicate NeverCommitsMissingGroup(w: World, ops: seq<Op>)
    decreases |ops|
  {
    ops != [] ==> !CommitsMissingGroup(w, ops[0]) && NeverCommitsMissingGroup(Step(w, ops[0]), ops[1..])
  }

  /** Throughout a run every membership names an existing group if and only if no membership
      change of the run is committed after one of its groups was removed. */
  lemma {:induction false} GroupRefsIff(w: World, ops: seq<Op>)
    requires GroupRefs(w.db)
    ensures AlwaysGroupRefs(w, ops) <==> NeverCommitsMissingGroup(w, ops)
    decreases |ops|
  {
    hide GroupRefs, CommitsMissingGroup, Step;
    if ops != [] {
      GroupRefsStep(w, ops[0]);
      if GroupRefs(Step(w, ops[0]).db) {
        GroupRefsIff(Step(w, ops[0]), ops[1..]);
      }
    }
  }

  /** Read and committed back to back, a change never breaks the references. */
  lemma UninterruptedChangeKeepsGroupRefs(
    db: Db, actor: nat, target: nat, desired: set<nat>, expected: nat)
    requires GroupRefs(db)
    ensures
      var read := UserAdmin.ReadMemberships(db, actor, target, desired, expected, true);
      read.Pending? ==>
        && UserAdmin.CommitMemberships(db, read.change).outcome == Success
        && GroupRefs(UserAdmin.CommitMemberships(db, read.change).db)
  {
    hide IsAdmin;
  }

  /** The two steps of a membership change that nothing interrupts are the service call. */
  lemma UninterruptedChange(
    w: World, worker: nat, actor: nat, target: nat, desired: set<nat>, expected: nat, apply: bool)
    requires worker !in w.changes
    ensures
      Run(w, [ReadMemberships(worker, actor, target, desired, expected, apply), CommitMemberships(worker)]).db ==
        UserAdmin.ChangeMemberships(w.db, actor, target, desired, expected, apply).db
  {
    hide Answer, UserAdmin.ReadMemberships, UserAdmin.CommitMemberships, ServiceCatalog.ReadForCheck, ServiceCatalog.WriteVerdict;
    hide ProxyAuthorization.ReadTicket, ProxyAuthorization.CheckTicket, ProxyAuthorization.SetConsumed;
    var ops := [ReadMemberships(worker, actor, target, desired, expected, apply), CommitMemberships(worker)];
    var w1 := Step(w, ops[0]);
    var w2 := Step(w1, ops[1]);
    assert ops[1..] == [ops[1]];
    assert Run(w1, [ops[1]]) == Run(w2, []);
  }
}

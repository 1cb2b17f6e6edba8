/** Who may manage users and groups, when a management call goes through, and what it then leaves. */
module AdministrationTheorems {
  import opened Text
  import opened Records
  import opened PortalMachine
  import UserAdmin
  import GroupAdmin

  // ---- only administrators manage ----

  function Actor(call: Call): Option<nat> {
    match call
    case CreateUser(actor, _, _, _, _, _, _, _, _) => Some(actor)
    case UpdateUser(actor, _, _, _, _, _, _, _) => Some(actor)
    case SetUserStatus(actor, _, _, _, _, _) => Some(actor)
    case DeleteUser(actor, _, _, _) => Some(actor)
    case CreateGroup(actor, _, _, _, _) => Some(actor)
    case UpdateGroup(actor, _, _, _, _, _) => Some(actor)
    case SetGroupActive(actor, _, _, _, _) => Some(actor)
    case RemoveGroup(actor, _, _, _) => Some(actor)
    case InitiateReset(actor, _, _, _, _) => Some(actor)
    case _ => None
  }

  /** A call whose actor is not an active administrator with a permanent credential gets no success,
      not even as a preview, and changes nothing. */
  lemma OnlyAdminsManage(db: Db, cookies: set<Cookie>, call: Call, actor: nat)
    requires Actor(call) == Some(actor)
    requires actor in db.users ==>
      !(db.users[actor].status == Active && db.users[actor].credential == Permanent && db.users[actor].isAdmin)
    ensures var txn := Answer(db, cookies, call);
      txn.db == db && txn.outcome in {Denied, InvalidInput("status")}
  {
    hide Strip, CaseFold, Collapse, EmailTaken, FirstFree, RevokeAll;
  }

  /** The same for a membership change: nothing is answered but a refusal, and nothing becomes pending. */
  lemma OnlyAdminsReadMemberships(db: Db, actor: nat, target: nat, desired: set<nat>, expected: nat, apply: bool)
    requires actor in db.users ==>
      !(db.users[actor].status == Active && db.users[actor].credential == Permanent && db.users[actor].isAdmin)
    ensures UserAdmin.ReadMemberships(db, actor, target, desired, expected, apply) == UserAdmin.Answered(Denied)
    ensures UserAdmin.ChangeMemberships(db, actor, target, desired, expected, apply) == Txn(Denied, db)
  {}

  /** Position `i` of the run is where worker `k` read its change, as an administrator. */
  ghost predicate ReadByAdmin(start: World, ops: seq<Op>, i: nat, k: nat) {
    && i < |ops| && ops[i].ReadMemberships? && ops[i].worker == k
    && var db := Run(start, ops[..i]).db;
    && ops[i].actor in db.users
    && db.users[ops[i].actor].status == Active
    && db.users[ops[i].actor].credential == Permanent
    && db.users[ops[i].actor].isAdmin
  }

  /** Every membership change that is pending in a run was read for somebody who was an
      administrator when it was read. */
  lemma {:induction false} ChangesComeFromAdmins(start: World, ops: seq<Op>, k: nat)
    requires Initial(start) && k in Run(start, ops).changes
    ensures exists i :: ReadByAdmin(start, ops, i, k)
    decreases |ops|
  {
    hide Step, ReadByAdmin, Initial;
    if ops == [] {
      NothingPending(start);
    } else {
      var n := |ops| - 1;
      var before := Run(start, ops[..n]);
      assert ops == ops[..n] + [ops[n]];
      RunSplits(start, ops[..n], [ops[n]]);
      assert Run(before, [ops[n]]) == Run(Step(before, ops[n]), []);
      PendingSince(before, ops[n], k);
      if k in before.changes {
        ChangesComeFromAdmins(start, ops[..n], k);
        var i :| ReadByAdmin(start, ops[..n], i, k);
        ReadEarlier(start, ops, n, i, k);
      } else {
        ReadNow(start, ops, n, k);
      }
    }
  }

  lemma NothingPending(start: World)
    requires Initial(start)
    ensures start.changes == map[]
  {}

  /** A worker has a change after a step because it had one, or because the step read it. */
  lemma PendingSince(w: World, op: Op, k: nat)
    ensures k in Step(w, op).changes && k !in w.changes ==>
      && op.ReadMemberships? && op.worker == k
      && op.actor in w.db.users && w.db.users[op.actor].status == Active
      && w.db.users[op.actor].credential == Permanent && w.db.users[op.actor].isAdmin
  {
    if op.ReadMemberships? {
      hide UserAdmin.ReadMemberships;
      if op.actor in w.db.users ==>
        !(w.db.users[op.actor].status == Active && w.db.users[op.actor].credential == Permanent && w.db.users[op.actor].isAdmin)
      {
        OnlyAdminsReadMemberships(w.db, op.actor, op.target, op.desired, op.expected, op.apply);
      }
    } else {
      hide Answer, UserAdmin.CommitMemberships;
    }
  }

  lemma ReadEarlier(start: World, ops: seq<Op>, n: nat, i: nat, k: nat)
    requires n <= |ops| && ReadByAdmin(start, ops[..n], i, k)
    ensures ReadByAdmin(start, ops, i, k)
  {
    hide Run;
    assert ops[..n][..i] == ops[..i];
  }

  lemma ReadNow(start: World, ops: seq<Op>, n: nat, k: nat)
    requires n < |ops|
    requires var w := Run(start, ops[..n]);
      && ops[n].ReadMemberships? && ops[n].worker == k
      && ops[n].actor in w.db.users && w.db.users[ops[n].actor].status == Active
      && w.db.users[ops[n].actor].credential == Permanent && w.db.users[ops[n].actor].isAdmin
    ensures ReadByAdmin(start, ops, n, k)
  {
    hide Run;
  }

  // ---- users ----

  /** The actor is an administrator and looks at the user's present revision. */
  predicate Manages(db: Db, actor: nat, target: nat, expected: nat) {
    IsAdmin(db, actor) && target in db.users && db.users[target].revision == expected
  }

  /** Counting the other administrators never decides anything: the actor is one of them. */
  lemma OthersCheckIsRedundant(db: Db, actor: nat, target: nat, removing: bool, disabling: bool)
    requires IsAdmin(db, actor) && target in db.users
    ensures UserAdmin.AdminChangeAllowed(db, actor, target, removing, disabling) <==>
      (removing || disabling ==> target != actor)
  {
    assert ActiveAdmin(db, actor);
  }

  /** Exactly the open sessions of `user` are revoked, at `now`. */
  ghost predicate Ended(before: map<nat, Session>, after: map<nat, Session>, user: nat, now: int) {
    && after.Keys == before.Keys
    && forall sid | sid in before :: after[sid] == (
         if before[sid].userId == user && before[sid].revokedAt.None?
         then before[sid].(revokedAt := Some(now)) else before[sid])
  }

  lemma RevokingEnds(sessions: map<nat, Session>, user: nat, now: int)
    ensures Ended(sessions, RevokeAll(sessions, user, now), user, now)
  {}

  /** A user is created exactly by an administrator with an acceptable, free address, a name, a
      status and existing groups; then one row is new, with exactly the requested memberships. */
  lemma CreateUserExactly(
    db: Db, actor: nat, email: string, name: string, status: string, isAdmin: bool,
    groups: set<nat>, generated: string, hint: nat)
    ensures
      var txn := UserAdmin.CreateUser(db, actor, email, name, status, isAdmin, groups, true, generated, hint);
      var address := Strip(email);
      && (txn.outcome == Success <==>
            && IsAdmin(db, actor) && '@' in address && Strip(name) != "" && (status == "active" || status == "disabled")
            && (forall u | u in db.users :: db.users[u].normalizedEmail != CaseFold(address))
            && (forall g | g in groups :: g in db.groups))
      && (txn.outcome == Success ==>
            var id := FirstFree(db.users.Keys, hint);
            && id !in db.users
            && txn.db.users == db.users[id := User(
                 address, CaseFold(address), Strip(name), PasswordHash(generated, db.entropy),
                 if status == "active" then Active else Disabled, Temporary, isAdmin, 1, db.entropy)]
            && (forall u: nat, g: nat :: (u, g) in txn.db.memberships <==>
                  (u, g) in db.memberships || (u == id && g in groups)))
  {
    hide Strip, CaseFold, IsAdmin;
  }

  /** A profile update goes through exactly when something is requested, everything requested is
      acceptable, and nobody takes the flag from themselves. */
  lemma UpdateUserSucceedsIff(
    db: Db, actor: nat, target: nat, expected: nat, email: Option<string>, name: Option<string>,
    isAdmin: Option<bool>, now: int)
    requires Manages(db, actor, target, expected)
    ensures
      var row := db.users[target];
      var newEmail := email.Some? && Strip(email.value) != row.email;
      var newName := name.Some? && Strip(name.value) != row.displayName;
      var newFlag := isAdmin.Some? && isAdmin.value != row.isAdmin;
      UserAdmin.UpdateUser(db, actor, target, expected, email, name, isAdmin, true, now).outcome == Success <==>
        && (newEmail || newName || newFlag)
        && (newEmail ==> '@' in email.value)
        && (newEmail ==> forall u | u in db.users && u != target ::
              db.users[u].normalizedEmail != CaseFold(Strip(email.value)))
        && (newName ==> Strip(name.value) != "")
        && (newFlag && row.isAdmin ==> target != actor)
  {
    hide Strip, CaseFold, UserAdmin.AdminChangeAllowed, RevokeAll;
    OthersCheckIsRedundant(db, actor, target, isAdmin == Some(false) && db.users[target].isAdmin, false);
  }

  /** What a profile update stores: the requested fields under the next revision. The user's sessions
      end exactly when the flag changes. */
  lemma UpdateUserStores(
    db: Db, actor: nat, target: nat, expected: nat, email: Option<string>, name: Option<string>,
    isAdmin: Option<bool>, now: int)
    requires Manages(db, actor, target, expected)
    requires UserAdmin.UpdateUser(db, actor, target, expected, email, name, isAdmin, true, now).outcome == Success
    ensures
      var after := UserAdmin.UpdateUser(db, actor, target, expected, email, name, isAdmin, true, now).db;
      var row := db.users[target];
      && after.users == db.users[target := User(
           if email.Some? then Strip(email.value) else row.email,
           if email.Some? && Strip(email.value) != row.email then CaseFold(Strip(email.value)) else row.normalizedEmail,
           if name.Some? then Strip(name.value) else row.displayName,
           row.passwordHash, row.status, row.credential,
           if isAdmin.Some? then isAdmin.value else row.isAdmin, expected + 1, row.life)]
      && (if isAdmin == Some(!row.isAdmin) then Ended(db.sessions, after.sessions, target, now)
          else after.sessions == db.sessions)
  {
    hide Strip, CaseFold, IsAdmin, EmailTaken, UserAdmin.AdminChangeAllowed, Ended, RevokeAll;
    RevokingEnds(db.sessions, target, now);
  }

  /** An account is disabled or reactivated exactly when it is not already so and nobody disables
      themselves; then its row has the requested status and the next revision, and all else stays,
      but for the sessions a disabling ends. */
  lemma SetUserStatusExactly(db: Db, actor: nat, target: nat, expected: nat, status: string, now: int)
    requires Manages(db, actor, target, expected)
    ensures
      var txn := UserAdmin.SetUserStatus(db, actor, target, expected, status, true, now);
      var row := db.users[target];
      && (txn.outcome == Success <==>
            || (status == "active" && row.status == Disabled)
            || (status == "disabled" && row.status == Active && target != actor))
      && (txn.outcome == Success ==>
            && txn.db.users == db.users[target := row.(
                 status := if status == "active" then Active else Disabled, revision := expected + 1)]
            && (if status == "disabled" then Ended(db.sessions, txn.db.sessions, target, now)
                else txn.db.sessions == db.sessions))
  {
    hide UserAdmin.AdminChangeAllowed, Ended, RevokeAll;
    OthersCheckIsRedundant(db, actor, target, false, status == "disabled" && db.users[target].status == Active);
    RevokingEnds(db.sessions, target, now);
  }

  /** An administrator can delete everybody but themselves. The account goes with its memberships,
      sessions and requests; requests it made for others lose their author. */
  lemma DeleteUserExactly(db: Db, actor: nat, target: nat, expected: nat)
    requires Manages(db, actor, target, expected)
    ensures
      var txn := UserAdmin.DeleteUser(db, actor, target, expected, true);
      && (txn.outcome == Success <==> target != actor)
      && (txn.outcome == Success ==>
            && txn.db.users == db.users - {target}
            && (forall u: nat, g: nat :: (u, g) in txn.db.memberships <==> u != target && (u, g) in db.memberships)
            && (forall sid :: sid in txn.db.sessions <==> sid in db.sessions && db.sessions[sid].userId != target)
            && (forall sid | sid in txn.db.sessions :: txn.db.sessions[sid] == db.sessions[sid])
            && (forall token :: token in txn.db.resets <==> token in db.resets && db.resets[token].userId != target)
            && (forall token | token in txn.db.resets :: txn.db.resets[token] == db.resets[token].(
                  requestedBy := if db.resets[token].requestedBy == Some(target) then None else db.resets[token].requestedBy)))
  {
    hide UserAdmin.AdminChangeAllowed;
    var row := db.users[target];
    OthersCheckIsRedundant(db, actor, target, row.isAdmin, row.status == Active);
  }

  /** An uninterrupted membership change goes through exactly when the groups exist and something
      changes; then the user has exactly the desired groups, under the next revision. */
  lemma ChangeMembershipsExactly(db: Db, actor: nat, target: nat, desired: set<nat>, expected: nat)
    requires Manages(db, actor, target, expected)
    ensures
      var txn := UserAdmin.ChangeMemberships(db, actor, target, desired, expected, true);
      && (txn.outcome == Success <==>
            && (forall g | g in desired :: g in db.groups)
            && (exists g: nat :: (target, g) in db.memberships <==> g !in desired))
      && (txn.outcome == Success ==>
            && txn.db.users == db.users[target := db.users[target].(revision := expected + 1)]
            && forall u: nat, g: nat :: (u, g) in txn.db.memberships <==>
                 if u == target then g in desired else (u, g) in db.memberships)
  {
    hide IsAdmin;
    var existing := GroupsOf(db.memberships, target);
    if desired != existing {
      assert exists g: nat :: (g in existing <==> g !in desired) by {
        if forall g: nat :: g in existing ==> g in desired {
          var g :| g in desired && g !in existing;
        }
      }
    }
  }

  /** A membership change becomes pending exactly when an administrator who looks at the user's present
      revision asks for existing groups other than the stored ones; a preview then answers success. */
  lemma MembershipReadIff(db: Db, actor: nat, target: nat, desired: set<nat>, expected: nat)
    ensures
      var read := UserAdmin.ReadMemberships(db, actor, target, desired, expected, true);
      && (read.Pending? <==>
            && Manages(db, actor, target, expected) && (forall g | g in desired :: g in db.groups)
            && desired != GroupsOf(db.memberships, target))
      && (read.Pending? ==>
            && read.change.target == target && read.change.desired == desired && read.change.expected == expected
            && (forall g: nat :: g in read.change.existing <==> (target, g) in db.memberships)
            && UserAdmin.ReadMemberships(db, actor, target, desired, expected, false) == UserAdmin.Answered(Success))
  {
    hide IsAdmin;
  }

  /** A stale revision or an unknown user is answered before anything else an administrator asks. */
  lemma StaleOrMissingUser(db: Db, cookies: set<Cookie>, call: Call, actor: nat)
    requires Actor(call) == Some(actor) && IsAdmin(db, actor)
    requires call.UpdateUser? || call.DeleteUser? || call.InitiateReset?
             || (call.SetUserStatus? && (call.status == "active" || call.status == "disabled"))
    ensures
      var txn := Answer(db, cookies, call);
      && (call.target !in db.users ==> txn == Txn(NotFound, db))
      && (call.target in db.users && db.users[call.target].revision != call.expected ==> txn == Txn(Conflict, db))
  {
    hide Strip, CaseFold, EmailTaken, RevokeAll;
  }

  // ---- groups ----

  /** The actor is an administrator and looks at the group's present revision. */
  predicate ManagesGroup(db: Db, actor: nat, group: nat, expected: nat) {
    IsAdmin(db, actor) && group in db.groups && db.groups[group].revision == expected
  }

  /** A description is stored stripped and cut, and not at all when it is blank. */
  lemma DescriptionIsCut(description: string)
    ensures
      var stored := GroupAdmin.CleanDescription(description);
      && (stored.None? <==> Strip(description) == "")
      && (stored.Some? ==>
            && stored.value <= Strip(description) && |stored.value| <= 500
            && (|stored.value| < 500 ==> stored.value == Strip(description)))
  {
    hide Strip;
  }

  ghost predicate NameIsFree(db: Db, name: string, except: Option<nat>) {
    && 0 < |GroupAdmin.Canonical(name)| <= 100
    && forall g | g in db.groups && Some(g) != except :: db.groups[g].normalizedName != CaseFold(GroupAdmin.Canonical(name))
  }

  lemma CreateGroupExactly(db: Db, actor: nat, name: string, description: string, hint: nat)
    ensures
      var txn := GroupAdmin.CreateGroup(db, actor, name, description, true, hint);
      && (txn.outcome == Success <==> IsAdmin(db, actor) && NameIsFree(db, name, None))
      && (txn.outcome == Success ==>
            var id := FirstFree(db.groups.Keys, hint);
            var canonical := GroupAdmin.Canonical(name);
            && id !in db.groups
            && txn.db.groups == db.groups[id := Group(
                 canonical, CaseFold(canonical), GroupAdmin.CleanDescription(description), true, 1)])
  {
    hide IsAdmin, CaseFold, GroupAdmin.Canonical, GroupAdmin.CleanDescription;
  }

  lemma UpdateGroupExactly(db: Db, actor: nat, group: nat, expected: nat, name: string, description: string)
    requires ManagesGroup(db, actor, group, expected)
    ensures
      var txn := GroupAdmin.UpdateGroup(db, actor, group, expected, name, description, true);
      var row := db.groups[group];
      var canonical := GroupAdmin.Canonical(name);
      var text := GroupAdmin.CleanDescription(description);
      && (txn.outcome == Success <==>
            NameIsFree(db, name, Some(group)) && (canonical != row.name || text != row.description))
      && (txn.outcome == Success ==>
            txn.db.groups == db.groups[group := Group(canonical, CaseFold(canonical), text, row.active, expected + 1)])
  {
    hide IsAdmin, CaseFold, GroupAdmin.Canonical, GroupAdmin.CleanDescription;
  }

  /** An active group is deactivated exactly when an active administrator is outside it, an inactive
      one is reactivated always; nothing but its state and revision moves. */
  lemma SetGroupActiveExactly(db: Db, actor: nat, group: nat, expected: nat, active: bool)
    requires ManagesGroup(db, actor, group, expected)
    ensures
      var txn := GroupAdmin.SetGroupActive(db, actor, group, expected, active, true);
      var row := db.groups[group];
      && (txn.outcome == Success <==>
            && row.active != active
            && (active || exists u: nat ::
                  && u in db.users && db.users[u].isAdmin && db.users[u].status == Active
                  && (u, group) !in db.memberships))
      && (txn.outcome == Success ==>
            txn.db.groups == db.groups[group := row.(active := active, revision := expected + 1)])
  {
    hide IsAdmin;
  }

  /** A group is removed exactly when nobody is a member and no service names it: the protection of
      the last administrator decides only which refusal is answered. */
  lemma RemoveGroupExactly(db: Db, actor: nat, group: nat, expected: nat)
    requires ManagesGroup(db, actor, group, expected)
    ensures
      var txn := GroupAdmin.RemoveGroup(db, actor, group, expected, true);
      && (txn.outcome == Success <==>
            (forall u: nat :: (u, group) !in db.memberships) && (forall s: nat :: (s, group) !in db.rules))
      && (txn.outcome == Success ==> txn.db.groups == db.groups - {group})
      && (txn.outcome == Denied <==>
            forall u: nat | u in db.users && db.users[u].isAdmin && db.users[u].status == Active ::
              (u, group) in db.memberships)
  {
    assert ActiveAdmin(db, actor);
  }

  lemma StaleOrMissingGroup(db: Db, cookies: set<Cookie>, call: Call, actor: nat)
    requires Actor(call) == Some(actor) && IsAdmin(db, actor)
    requires call.UpdateGroup? || call.SetGroupActive? || call.RemoveGroup?
    ensures
      var txn := Answer(db, cookies, call);
      && (call.group !in db.groups ==> txn == Txn(NotFound, db))
      && (call.group in db.groups && db.groups[call.group].revision != call.expected ==> txn == Txn(Conflict, db))
  {
    hide Strip, CaseFold, Collapse;
  }

  /** A stored name is the words of what was typed in, joined with single spaces. */
  lemma NameJoinsWords(name: string)
    ensures GroupAdmin.Canonical(name) == Join(Words(Strip(name)), " ")
  {
    hide StripLeft, StripRight, Collapse, Words, Join;
    StripIsStripped(name);
    CollapseJoinsWords(Strip(name));
  }
}

/** `user_admin_service`: what each call answers and commits. */
module UserAdmin {
  import opened Text
  import opened Records
  import opened Access

  function ParseStatus(status: string): Option<Status> {
    if status == "active" then Some(Active) else if status == "disabled" then Some(Disabled) else None
  }

  /** `_target_for_change`: the answer that stops the call, if any. */
  function TargetProblem(db: Db, actor: nat, target: nat, expected: nat): Option<Outcome> {
    if !IsAdmin(db, actor) then Some(Denied)
    else if target !in db.users then Some(NotFound)
    else if db.users[target].revision != expected then Some(Conflict)
    else None
  }

  /** `_protect_admin_change` lets the change through. */
  ghost predicate AdminChangeAllowed(db: Db, actor: nat, target: nat, removing: bool, disabling: bool)
    requires target in db.users
  {
    removing || disabling ==>
      && target != actor
      && (ActiveAdmin(db, target) ==> exists other :: other != target && ActiveAdmin(db, other))
  }

  ghost function CreateUser(
    db: Db, actor: nat, email: string, displayName: string, status: string, isAdmin: bool,
    groupIds: set<nat>, apply: bool, generated: string, hint: nat): (txn: Txn)
    ensures txn.db == db.(users := txn.db.users, memberships := txn.db.memberships, entropy := txn.db.entropy)
  {
    var canonical := Strip(email);
    var name := Strip(displayName);
    if !IsAdmin(db, actor) then Txn(Denied, db)
    else if '@' !in canonical then Txn(InvalidInput("email"), db)
    else if name == "" then Txn(InvalidInput("display_name"), db)
    else if ParseStatus(status).None? then Txn(InvalidInput("status"), db)
    else if EmailTaken(db, CaseFold(canonical), None) then Txn(InvalidInput("email"), db)
    else if !(groupIds <= db.groups.Keys) then Txn(InvalidInput("group_ids"), db)
    else if !apply then Txn(Success, db)
    else
      var id := FirstFree(db.users.Keys, hint);
      var row := User(canonical, CaseFold(canonical), name, PasswordHash(generated, db.entropy), ParseStatus(status).value,
                      Temporary, isAdmin, 1, db.entropy);
      Txn(Success, db.(
        users := db.users[id := row],
        memberships := db.memberships + MembershipRows(id, groupIds),
        entropy := db.entropy + 1))
  }

  /** The first requested field that is not acceptable. A field that already matches is not a request. */
  function ProfileProblem(row: User, email: Option<string>, displayName: Option<string>): Option<Outcome> {
    if email.Some? && Strip(email.value) != row.email && '@' !in email.value then Some(InvalidInput("email"))
    else if displayName.Some? && Strip(displayName.value) != row.displayName && Strip(displayName.value) == ""
    then Some(InvalidInput("display_name"))
    else None
  }

  /** The row with the requested fields written. */
  function ProfileRow(row: User, email: Option<string>, displayName: Option<string>, isAdmin: Option<bool>): (wanted: User)
    ensures wanted.revision == row.revision
  {
    var newEmail := email.Some? && Strip(email.value) != row.email;
    row.(
      email := if newEmail then Strip(email.value) else row.email,
      normalizedEmail := if newEmail then CaseFold(Strip(email.value)) else row.normalizedEmail,
      displayName := if displayName.Some? then Strip(displayName.value) else row.displayName,
      isAdmin := if isAdmin.Some? then isAdmin.value else row.isAdmin)
  }

  ghost function UpdateUser(
    db: Db, actor: nat, target: nat, expected: nat, email: Option<string>, displayName: Option<string>,
    isAdmin: Option<bool>, apply: bool, now: int): (txn: Txn)
    ensures txn.db == db.(users := txn.db.users, sessions := txn.db.sessions)
  {
    var problem := TargetProblem(db, actor, target, expected);
    if problem.Some? then Txn(problem.value, db)
    else
      var row := db.users[target];
      var wanted := ProfileRow(row, email, displayName, isAdmin);
      if !AdminChangeAllowed(db, actor, target, isAdmin == Some(false) && row.isAdmin, false) then Txn(Denied, db)
      else if ProfileProblem(row, email, displayName).Some? then Txn(ProfileProblem(row, email, displayName).value, db)
      else if wanted == row then Txn(NoChange, db)
      else if !apply then Txn(Success, db)
      else if wanted.email != row.email && EmailTaken(db, wanted.normalizedEmail, Some(target)) then Txn(Conflict, db)
      else
        Txn(Success, db.(
          users := db.users[target := wanted.(revision := row.revision + 1)],
          sessions := if wanted.isAdmin != row.isAdmin then RevokeAll(db.sessions, target, now) else db.sessions))
  }

  ghost function SetUserStatus(
    db: Db, actor: nat, target: nat, expected: nat, status: string, apply: bool, now: int): (txn: Txn)
    ensures txn.db == db.(users := txn.db.users, sessions := txn.db.sessions)
  {
    var parsed := ParseStatus(status);
    var problem := TargetProblem(db, actor, target, expected);
    if parsed.None? then Txn(InvalidInput("status"), db)
    else if problem.Some? then Txn(problem.value, db)
    else
      var row := db.users[target];
      if !AdminChangeAllowed(db, actor, target, false, parsed.value == Disabled && row.status == Active) then Txn(Denied, db)
      else if row.status == parsed.value then Txn(NoChange, db)
      else if !apply then Txn(Success, db)
      else
        Txn(Success, db.(
          users := db.users[target := row.(status := parsed.value, revision := row.revision + 1)],
          sessions := if parsed.value == Disabled then RevokeAll(db.sessions, target, now) else db.sessions))
  }

  function SessionsWithout(sessions: map<nat, Session>, user: nat): (after: map<nat, Session>)
    ensures forall sid :: sid in after <==> sid in sessions && sessions[sid].userId != user
    ensures forall sid | sid in after :: after[sid] == sessions[sid]
  {
    map sid | sid in sessions && sessions[sid].userId != user :: sessions[sid]
  }

  /** The user's own requests go; requests the user made for others lose their author. */
  function ResetsWithout(resets: map<nat, Reset>, user: nat): (after: map<nat, Reset>)
    ensures forall token :: token in after <==> token in resets && resets[token].userId != user
    ensures forall token | token in after ::
        after[token] == (
          if resets[token].requestedBy == Some(user)
          then resets[token].(requestedBy := None) else resets[token])
  {
    map token | token in resets && resets[token].userId != user ::
      if resets[token].requestedBy == Some(user) then resets[token].(requestedBy := None) else resets[token]
  }

  /** Launch tickets are not touched. */
  ghost function DeleteUser(db: Db, actor: nat, target: nat, expected: nat, apply: bool): (txn: Txn)
    ensures txn.db == db.(
      users := txn.db.users, memberships := txn.db.memberships, sessions := txn.db.sessions, resets := txn.db.resets)
  {
    var problem := TargetProblem(db, actor, target, expected);
    if problem.Some? then Txn(problem.value, db)
    else
      var row := db.users[target];
      if !AdminChangeAllowed(db, actor, target, row.isAdmin, row.status == Active) then Txn(Denied, db)
      else if !apply then Txn(Success, db)
      else
        Txn(Success, db.(
          users := db.users - {target},
          memberships := WithoutUser(db.memberships, target),
          sessions := SessionsWithout(db.sessions, target),
          resets := ResetsWithout(db.resets, target)))
  }

  // ---- change_memberships, split at its read and its compare-and-set ----

  /** What `change_memberships` holds between its reads and its UPDATE. */
  datatype Change = Change(target: nat, desired: set<nat>, expected: nat, existing: set<nat>, life: nat, before: map<nat, AccessRecord>) {
    function Added(): set<nat> { desired - existing }
    function Removed(): set<nat> { existing - desired }
  }

  datatype ReadResult = Answered(outcome: Outcome) | Pending(change: Change)

  /** Everything up to the UPDATE. `before` is what `effective_access_for_user` answered. */
  ghost function ReadMemberships(
    db: Db, actor: nat, target: nat, desired: set<nat>, expected: nat, apply: bool): ReadResult
  {
    var problem := TargetProblem(db, actor, target, expected);
    if problem.Some? then Answered(problem.value)
    else if !(desired <= db.groups.Keys) then Answered(InvalidInput("group_ids"))
    else
      var existing := GroupsOf(db.memberships, target);
      if desired == existing then Answered(NoChange)
      else if !apply then Answered(Success)
      else Pending(Change(target, desired, expected, existing, db.users[target].life, AccessOf(db, target)))
  }

  /** The conditional UPDATE and, when it hits a row, the replacement of the membership rows. */
  ghost function CommitMemberships(db: Db, change: Change): (txn: Txn)
    ensures txn.db == db.(users := txn.db.users, memberships := txn.db.memberships)
  {
    if change.target in db.users && db.users[change.target].revision == change.expected then
      var row := db.users[change.target];
      Txn(Success, db.(
        users := db.users[change.target := row.(revision := row.revision + 1)],
        memberships := WithoutUser(db.memberships, change.target) + MembershipRows(change.target, change.desired)))
    else Txn(Conflict, db)
  }

  /** `change_memberships` run without interruption. */
  ghost function ChangeMemberships(
    db: Db, actor: nat, target: nat, desired: set<nat>, expected: nat, apply: bool): Txn
  {
    match ReadMemberships(db, actor, target, desired, expected, apply)
    case Answered(outcome) => Txn(outcome, db)
    case Pending(change) => CommitMemberships(db, change)
  }
}

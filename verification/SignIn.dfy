/** `bootstrap_service`, `session_service` and the sign-in routes. */
module SignIn {
  import opened Text
  import opened Records

  const MIN_PASSWORD := 10

  predicate Verifies(hash: PasswordHash, password: string) {
    hash.password == password
  }

  predicate BootstrapRequired(db: Db) {
    db.users == map[] && (db.installation.None? || !db.installation.value.initialized)
  }

  /** `mark_installation_initialized` */
  function Initialized(installation: Option<Installation>, now: int): Installation {
    match installation
    case None => Installation(true, 1, Some(now))
    case Some(row) => Installation(true, row.revision + 1, if row.initializedAt.Some? then row.initializedAt else Some(now))
  }

  /** The checks of `bootstrap_admin`, in their order. */
  function BootstrapProblem(db: Db, email: string, displayName: string, password: string): Option<Outcome> {
    if Strip(displayName) == "" then Some(InvalidInput("display_name"))
    else if |password| < MIN_PASSWORD then Some(PasswordTooShort)
    else if (db.installation.Some? && db.installation.value.initialized) || db.users != map[] then Some(AlreadyInitialized)
    else if '@' !in Strip(email) then Some(InvalidInput("email"))
    else None
  }

  /** `bootstrap_admin`, from the write lock to the commit. A missing installation row is
      inserted with revision 1 first. */
  ghost function Bootstrap(
    db: Db, email: string, displayName: string, password: string, hint: nat, now: int): (txn: Txn)
    ensures txn.db == db.(users := txn.db.users, installation := txn.db.installation, entropy := txn.db.entropy)
  {
    var problem := BootstrapProblem(db, email, displayName, password);
    var row := if db.installation.None? then Some(Installation(false, 1, None)) else db.installation;
    if problem.Some? then Txn(problem.value, db)
    else
      var id := FirstFree(db.users.Keys, hint);
      var user := User(Strip(email), CaseFold(Strip(email)), Strip(displayName), PasswordHash(password, db.entropy),
                       Active, Permanent, true, 1, db.entropy);
      Txn(Success, db.(
        users := db.users[id := user],
        installation := Some(Initialized(row, now)),
        entropy := db.entropy + 1))
  }

  /** `_ensure_installation_state`, run whenever a command opens the store. */
  function EnsureSchema(db: Db, now: int): (after: Db)
    ensures after == db.(installation := after.installation)
  {
    match db.installation
    case None =>
      db.(installation := Some(if db.users == map[] then Installation(false, 1, None) else Installation(true, 1, Some(now))))
    case Some(row) =>
      if !row.initialized && db.users != map[]
      then db.(installation := Some(Installation(true, row.revision + 1, Some(now))))
      else db
  }

  /** The address query of `authenticate` may return this row. */
  predicate QueryReturns(db: Db, email: string, user: nat) {
    user in db.users && SqlLower(db.users[user].email) == CaseFold(Strip(email))
  }

  /** The sign-in route past its limiter. `user` is the row the email query returned, if any. */
  ghost function SignIn(db: Db, user: nat, email: string, password: string, ttl: int, now: int): (txn: Txn)
    ensures txn.db == db.(sessions := txn.db.sessions, entropy := txn.db.entropy)
  {
    if BootstrapRequired(db) then Txn(SetupPending, db)
    else if
      && QueryReturns(db, email, user)
      && Verifies(db.users[user].passwordHash, password)
      && db.users[user].status == Active
      && db.users[user].credential in {Permanent, Temporary}
    then
      Txn(Success, db.(
        sessions := db.sessions[db.entropy := Session(user, now + ttl, None, now)],
        entropy := db.entropy + 1))
    else Txn(InvalidCredentials, db)
  }

  ghost function SignOut(db: Db, sid: nat, now: int): (txn: Txn)
    ensures txn.db == db.(sessions := txn.db.sessions)
  {
    if !ValidSession(db, sid, now) then Txn(NoChange, db)
    else
      var row := db.sessions[sid].(lastSeenAt := now, revokedAt := Some(now));
      Txn(Success, db.(sessions := db.sessions[sid := row]))
  }

  /** The change-password route, session validation included. */
  ghost function ChangePassword(db: Db, sid: nat, password: string, now: int): (txn: Txn)
    ensures txn.db == db.(users := txn.db.users, sessions := txn.db.sessions, entropy := txn.db.entropy)
  {
    if !ValidSession(db, sid, now) then Txn(InvalidSession, db)
    else
      var seen := Touch(db, sid, now);
      var id := db.sessions[sid].userId;
      var user := db.users[id];
      if user.credential != Temporary then Txn(NoChange, seen)
      else if |password| < MIN_PASSWORD then Txn(PasswordTooShort, seen)
      else
        var changed := user.(
          passwordHash := PasswordHash(password, db.entropy),
          credential := Permanent,
          revision := user.revision + 1);
        Txn(Success, seen.(users := db.users[id := changed], entropy := db.entropy + 1))
  }
}

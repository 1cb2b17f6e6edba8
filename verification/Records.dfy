/** The tables of the identity and access store, as values. */
module Records {
  import opened Text

  datatype Status = Active | Disabled

  datatype Credential = SetupRequired | Temporary | Permanent

  /** A salted digest: verifying recovers exactly the hashed password, and two digests drawn
      with different salts differ. Stands for the Argon2 string. */
  datatype PasswordHash = PasswordHash(password: string, salt: nat)

  /** `life` is not a column: it is the draw of the entropy source made when the row was
      inserted, so that two users who successively own one id can be told apart. */
  datatype User = User(
    email: string,
    normalizedEmail: string,
    displayName: string,
    passwordHash: PasswordHash,
    status: Status,
    credential: Credential,
    isAdmin: bool,
    revision: nat,
    life: nat)

  datatype Group = Group(name: string, normalizedName: string, description: Option<string>, active: bool, revision: nat)

  /** What a compatibility verdict is about. */
  datatype Policy = Policy(destination: string, proxy: bool, websocket: bool)

  datatype Verdict = Unchecked | Compatible | Limited | Failed

  /** `verdictFor` is not a column: it is the policy the stored verdict was reached for. */
  datatype Service = Service(
    slug: string,
    displayName: string,
    description: Option<string>,
    enabled: bool,
    policy: Policy,
    verdict: Verdict,
    verdictFor: Policy)

  datatype Session = Session(userId: nat, expiresAt: int, revokedAt: Option<int>, lastSeenAt: int)

  datatype Ticket = Ticket(sessionId: nat, serviceId: nat, expiresAt: int, consumedAt: Option<int>)

  datatype Reset = Reset(
    userId: nat,
    expiresAt: int,
    consumedAt: Option<int>,
    invalidatedAt: Option<int>,
    requestedBy: Option<nat>)
  {
    predicate Open() {
      consumedAt.None? && invalidatedAt.None?
    }
  }

  datatype Installation = Installation(initialized: bool, revision: nat, initializedAt: Option<int>)

  /** One committed state. `memberships` holds (user, group) rows and `rules` (service, group)
      rows. Session ids, ticket tokens, reset tokens and salts are draws from one random source
      that never repeats; `entropy` is its next draw. Row ids may be reused after a delete. */
  datatype Db = Db(
    users: map<nat, User>,
    groups: map<nat, Group>,
    memberships: set<(nat, nat)>,
    services: map<nat, Service>,
    rules: set<(nat, nat)>,
    sessions: map<nat, Session>,
    tickets: map<nat, Ticket>,
    resets: map<nat, Reset>,
    installation: Option<Installation>,
    entropy: nat)

  /** A signed service cookie: session, service and expiry. */
  datatype Cookie = Cookie(sessionId: nat, serviceId: nat, expiresAt: int)

  datatype Outcome =
    | Success
    | NoChange
    | InvalidInput(field: string)
    | Denied
    | NotFound
    | Conflict
    | PasswordTooShort
    | AlreadyInitialized
    | SetupPending
    | InvalidCredentials
    | PasswordChangeRequired
    | ServiceUnavailable
    | InvalidLaunchTicket
    | InvalidProxyCredential
    | ServiceMismatch
    | InvalidSession
    | NotAuthorized

  /** The answer of a service call and the state it leaves committed. */
  datatype Txn = Txn(outcome: Outcome, db: Db)

  /** The row id the engine hands out: the first unused one from a hint of its choosing, so
      quantifying over hints covers every allocation policy, reuse included. */
  function FirstFree(used: set<nat>, hint: nat): (id: nat)
    ensures id !in used
    ensures id >= hint
    ensures hint !in used ==> id == hint
    decreases used
  {
    if hint in used then FirstFree(used - {hint}, hint + 1) else hint
  }

  // ---- queries shared by the services ----

  /** The check of `require_admin_actor`. */
  predicate IsAdmin(db: Db, actor: nat) {
    && actor in db.users
    && db.users[actor].status == Active
    && db.users[actor].credential == Permanent
    && db.users[actor].isAdmin
  }

  /** Counted by the last-administrator checks: the credential is not looked at. */
  predicate ActiveAdmin(db: Db, user: nat) {
    user in db.users && db.users[user].isAdmin && db.users[user].status == Active
  }

  /** Another user has this normalised address. */
  predicate EmailTaken(db: Db, normalized: string, except: Option<nat>) {
    exists id | id in db.users && Some(id) != except :: db.users[id].normalizedEmail == normalized
  }

  /** The groups of one user. */
  function GroupsOf(memberships: set<(nat, nat)>, user: nat): (groups: set<nat>)
    ensures forall g :: g in groups <==> (user, g) in memberships
  {
    set row | row in memberships && row.0 == user :: row.1
  }

  function MembershipRows(user: nat, groups: set<nat>): (rows: set<(nat, nat)>)
    ensures forall u, g :: (u, g) in rows <==> u == user && g in groups
  {
    set g | g in groups :: (user, g)
  }

  function WithoutUser(memberships: set<(nat, nat)>, user: nat): (rows: set<(nat, nat)>)
    ensures forall u, g :: (u, g) in rows <==> u != user && (u, g) in memberships
  {
    set row | row in memberships && row.0 != user
  }

  /** A group grants `user` a way into `service`. */
  predicate Grants(db: Db, group: nat, user: nat, service: nat) {
    && (service, group) in db.rules
    && (user, group) in db.memberships
    && group in db.groups
    && db.groups[group].active
  }

  /** `may_enter`: the one relational definition of access. */
  ghost predicate MayEnter(db: Db, user: nat, service: nat) {
    && user in db.users && db.users[user].status == Active
    && service in db.services && db.services[service].enabled
    && exists group :: Grants(db, group, user, service)
  }

  /** The test of `validate_session`. */
  predicate ValidSession(db: Db, sid: nat, now: int) {
    && sid in db.sessions
    && db.sessions[sid].revokedAt.None?
    && db.sessions[sid].expiresAt > now
    && db.sessions[sid].userId in db.users
    && db.users[db.sessions[sid].userId].status == Active
  }

  /** The write of `validate_session`. */
  function Touch(db: Db, sid: nat, now: int): Db
    requires sid in db.sessions
  {
    db.(sessions := db.sessions[sid := db.sessions[sid].(lastSeenAt := now)])
  }

  /** `revoke_user_sessions`. */
  function RevokeAll(sessions: map<nat, Session>, user: nat, now: int): (after: map<nat, Session>)
    ensures after.Keys == sessions.Keys
    ensures forall sid | sid in sessions ::
        after[sid] == (
          if sessions[sid].userId == user && sessions[sid].revokedAt.None?
          then sessions[sid].(revokedAt := Some(now)) else sessions[sid])
  {
    map sid | sid in sessions ::
      if sessions[sid].userId == user && sessions[sid].revokedAt.None?
      then sessions[sid].(revokedAt := Some(now)) else sessions[sid]
  }
}

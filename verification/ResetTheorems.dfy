/** Password resets over whole runs, deliveries failing at any later time. */
module ResetTheorems {
  import opened Text
  import opened Records
  import opened StoreInvariant
  import opened PortalMachine
  import opened PortalSafety
  import opened PortalTheorems
  import opened AdministrationTheorems
  import SignIn
  import PasswordReset

  /** No user ever has two requests that are neither consumed nor invalidated. */
  lemma AtMostOneOpenRequest(start: World, ops: seq<Op>)
    requires Initial(start)
    ensures
      var db := Run(start, ops).db;
      forall t, r | t in db.resets && r in db.resets && db.resets[t].Open() && db.resets[r].Open() ::
        db.resets[t].userId == db.resets[r].userId ==> t == r
  {
    hide WorkersSound, WinsSound, Run;
    ReachableIsSafe(start, ops);
  }

  /** In a reachable store a completion succeeds exactly on a usable token and a long enough
      password, and a completion that fails changes nothing. */
  lemma CompletionSucceedsIff(start: World, ops: seq<Op>, token: nat, password: string, now: int)
    requires Initial(start)
    ensures
      var db := Run(start, ops).db;
      var txn := PasswordReset.CompleteReset(db, token, password, now);
      && (txn.outcome == Success <==> PasswordReset.Usable(db, token, now) && |password| >= SignIn.MIN_PASSWORD)
      && (txn.outcome != Success ==> txn.db == db)
      && (txn.outcome == Success ==>
            var user := db.resets[token].userId;
            && txn.db.users[user].passwordHash.password == password
            && txn.db.users[user].credential == Permanent
            && txn.db.users[user].revision == db.users[user].revision + 1)
  {
    hide WorkersSound, WinsSound, Run;
    ReachableIsSafe(start, ops);
  }

  /** A token that was handed out and is no longer open. */
  predicate Spent(db: Db, token: nat) {
    token < db.entropy && (token in db.resets ==> !db.resets[token].Open())
  }

  /** The ways a token is spent: superseded by a newer request, its delivery failed, completed,
      or its user deleted. */
  ghost predicate Spends(db: Db, call: Call, token: nat) {
    token in db.resets && match call
    case InitiateReset(_, target, _, _, _) => db.resets[token].userId == target
    case FailDelivery(failed, _) => failed == token
    case CompleteReset(used, _, _) => used == token
    case DeleteUser(_, target, _, apply) => apply && db.resets[token].userId == target
    case _ => false
  }

  lemma SpendingSpends(db: Db, cookies: set<Cookie>, call: Call, token: nat)
    requires Inv(db) && Spends(db, call, token) && Answer(db, cookies, call).outcome == Success
    ensures Spent(Answer(db, cookies, call).db, token)
  {
    hide AccountsOk, SessionsOk, TicketsOk, CatalogueOk, IsAdmin;
  }

  /** Whatever follows, a spent token never completes and trying it changes nothing. */
  lemma SpentTokenNeverCompletes(
    start: World, past: seq<Op>, call: Call, token: nat, future: seq<Op>, password: string, now: int)
    requires Initial(start)
    requires var w := Run(start, past);
      Spends(w.db, call, token) && Answer(w.db, w.cookies, call).outcome == Success
    ensures
      var db := Run(Step(Run(start, past), Do(call)), future).db;
      PasswordReset.CompleteReset(db, token, password, now) == Txn(InvalidInput("token"), db)
  {
    hide Safe, Inv, Run, Answer, Spends;
    var w := Run(start, past);
    ReachableIsSafe(start, past);
    SafeStore(w);
    SpendingSpends(w.db, w.cookies, call, token);
    StepKeepsSafe(w, Do(call));
    RunKeepsSafe(Step(w, Do(call)), future);
  }

  /** The expiry of a request never moves: past it the token is useless in every later state. */
  lemma ExpiredTokenNeverCompletes(
    start: World, past: seq<Op>, token: nat, future: seq<Op>, password: string, now: int)
    requires Initial(start)
    requires var db := Run(start, past).db; token in db.resets && db.resets[token].expiresAt <= now
    ensures
      var db := Run(Run(start, past), future).db;
      PasswordReset.CompleteReset(db, token, password, now) == Txn(InvalidInput("token"), db)
  {
    hide WorkersSound, WinsSound, Run;
    var w := Run(start, past);
    ReachableIsSafe(start, past);
    RunKeepsSafe(w, future);
    assert token < w.db.entropy;
  }

  // ---- what the steps of a reset store ----

  /** A reset is started exactly by an administrator who looks at the user's present revision. The
      new request is the user's, fresh, and expires in time; the user's open ones are closed; nobody
      else's move. */
  lemma InitiateExactly(db: Db, actor: nat, target: nat, expected: nat, ttl: int, now: int)
    ensures
      var txn := PasswordReset.InitiateReset(db, actor, target, expected, ttl, now);
      && (txn.outcome == Success <==> Manages(db, actor, target, expected))
      && (txn.outcome == Success ==>
            && txn.db.resets.Keys == db.resets.Keys + {db.entropy} && txn.db.entropy == db.entropy + 1
            && txn.db.resets[db.entropy] == Reset(target, now + ttl, None, None, Some(actor))
            && forall token | token in db.resets && token != db.entropy :: txn.db.resets[token] ==
                 if db.resets[token].userId == target && db.resets[token].consumedAt.None? && db.resets[token].invalidatedAt.None?
                 then db.resets[token].(invalidatedAt := Some(now)) else db.resets[token])
  {
    hide IsAdmin;
  }

  /** A failed delivery closes its own request and no other. */
  lemma FailureClosesOne(db: Db, token: nat, now: int)
    ensures
      var after := PasswordReset.FailDelivery(db, token, now).resets;
      && after.Keys == db.resets.Keys
      && forall t | t in db.resets :: after[t] ==
           if t == token then db.resets[t].(invalidatedAt := Some(now)) else db.resets[t]
  {}

  /** A completion consumes its own request, replaces its user's password and ends that user's
      sessions; every other request, user and session stays. */
  lemma CompletionStores(db: Db, token: nat, password: string, now: int)
    requires PasswordReset.CompleteReset(db, token, password, now).outcome == Success
    ensures
      var after := PasswordReset.CompleteReset(db, token, password, now).db;
      && token in db.resets && db.resets[token].userId in db.users
      && var user := db.resets[token].userId;
      && after.resets == db.resets[token := db.resets[token].(consumedAt := Some(now))]
      && after.users == db.users[user := db.users[user].(
           passwordHash := PasswordHash(password, db.entropy), credential := Permanent,
           revision := db.users[user].revision + 1)]
      && Ended(db.sessions, after.sessions, user, now)
  {
    hide Ended, RevokeAll;
    RevokingEnds(db.sessions, db.resets[token].userId, now);
  }
}

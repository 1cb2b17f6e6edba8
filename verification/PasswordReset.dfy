/** `password_reset_service` and the route in front of it. Delivery is a separate step. */
module PasswordReset {
  import opened Text
  import opened Records
  import UserAdmin
  import SignIn

  /** The loop over the user's open requests. */
  function Supersede(resets: map<nat, Reset>, user: nat, now: int): (after: map<nat, Reset>)
    ensures after.Keys == resets.Keys
    ensures forall token | token in resets ::
        after[token] == (
          if resets[token].userId == user && resets[token].Open()
          then resets[token].(invalidatedAt := Some(now)) else resets[token])
  {
    map token | token in resets ::
      if resets[token].userId == user && resets[token].Open()
      then resets[token].(invalidatedAt := Some(now)) else resets[token]
  }

  /** Up to the commit that precedes delivery. The new token is `db.entropy`. */
  ghost function InitiateReset(db: Db, actor: nat, target: nat, expected: nat, ttl: int, now: int): (txn: Txn)
    ensures txn.db == db.(resets := txn.db.resets, entropy := txn.db.entropy)
  {
    var problem := UserAdmin.TargetProblem(db, actor, target, expected);
    if problem.Some? then Txn(problem.value, db)
    else
      Txn(Success, db.(
        resets := Supersede(db.resets, target, now)[db.entropy := Reset(target, now + ttl, None, None, Some(actor))],
        entropy := db.entropy + 1))
  }

  /** The handler of a failed delivery. A row deleted meanwhile stays deleted. */
  ghost function FailDelivery(db: Db, token: nat, now: int): (after: Db)
    ensures after == db.(resets := after.resets)
  {
    if token in db.resets
    then db.(resets := db.resets[token := db.resets[token].(invalidatedAt := Some(now))])
    else db
  }

  /** `_active_request` accepts the token. */
  predicate Usable(db: Db, token: nat, now: int) {
    token in db.resets && db.resets[token].Open() && db.resets[token].expiresAt > now
  }

  ghost function CompleteReset(db: Db, token: nat, password: string, now: int): (txn: Txn)
    ensures txn.db == db.(
      users := txn.db.users, resets := txn.db.resets, sessions := txn.db.sessions, entropy := txn.db.entropy)
  {
    if !Usable(db, token, now) then Txn(InvalidInput("token"), db)
    else
      var request := db.resets[token];
      if request.userId !in db.users then Txn(InvalidInput("token"), db)
      else if |password| < SignIn.MIN_PASSWORD then Txn(PasswordTooShort, db)
      else
        var user := db.users[request.userId];
        var changed := user.(
          passwordHash := PasswordHash(password, db.entropy),
          credential := Permanent,
          revision := user.revision + 1);
        Txn(Success, db.(
          users := db.users[request.userId := changed],
          resets := db.resets[token := request.(consumedAt := Some(now))],
          sessions := RevokeAll(db.sessions, request.userId, now),
          entropy := db.entropy + 1))
  }
}

/** `proxy_authorization_service` and the routes that issue and redeem launch tickets. */
module ProxyAuthorization {
  import opened Text
  import opened Records
  import ServiceCatalog

  /** `enter_service`, session validation included. On success through the proxy the new
      ticket's token is `db.entropy`. */
  ghost function EnterService(db: Db, sid: nat, slug: string, ttl: int, now: int): (txn: Txn)
    ensures txn.db == db.(sessions := txn.db.sessions, tickets := txn.db.tickets, entropy := txn.db.entropy)
  {
    if !ValidSession(db, sid, now) then Txn(InvalidSession, db)
    else
      var seen := Touch(db, sid, now);
      var user := db.sessions[sid].userId;
      var owner := ServiceCatalog.SlugOwner(db, slug);
      if db.users[user].credential == Temporary then Txn(PasswordChangeRequired, seen)
      else if owner.None? then Txn(NotFound, seen)
      else
        var service := owner.value;
        if !db.services[service].enabled then Txn(ServiceUnavailable, seen)
        else if !MayEnter(db, user, service) then Txn(NotAuthorized, seen)
        else if !db.services[service].policy.proxy then Txn(Success, seen)
        else
          Txn(Success, seen.(
            tickets := db.tickets[db.entropy := Ticket(sid, service, now + ttl, None)],
            entropy := db.entropy + 1))
  }

  /** A redeeming request between its steps. `HasRead` follows the ticket query and its local
      checks, `HasChecked` follows session, service and access checks. */
  datatype Redemption =
    | HasRead(token: nat, sessionId: nat, serviceId: nat, at: int)
    | HasChecked(token: nat, sessionId: nat, serviceId: nat, at: int, expiresAt: int)

  datatype Progress = Stopped(outcome: Outcome) | Continues(redemption: Redemption)

  ghost function ReadTicket(db: Db, token: nat, service: nat, now: int): (read: Progress)
    ensures read.Continues? ==>
      && token in db.tickets && db.tickets[token].serviceId == service
      && read.redemption == HasRead(token, db.tickets[token].sessionId, service, now)
  {
    if
      || token !in db.tickets
      || db.tickets[token].serviceId != service
      || db.tickets[token].consumedAt.Some?
      || db.tickets[token].expiresAt <= now
    then Stopped(InvalidLaunchTicket)
    else Continues(HasRead(token, db.tickets[token].sessionId, service, now))
  }

  ghost predicate ServiceOpen(db: Db, service: nat) {
    service in db.services && db.services[service].enabled && db.services[service].policy.proxy
  }

  datatype Checked = Checked(progress: Progress, db: Db)

  ghost function CheckTicket(db: Db, r: Redemption, now: int): (checked: Checked)
    requires r.HasRead?
    ensures
      var progress := checked.progress;
      progress.Continues? ==>
        && progress.redemption.HasChecked? && progress.redemption.token == r.token
        && progress.redemption.sessionId == r.sessionId && progress.redemption.serviceId == r.serviceId
    ensures checked.db == db.(sessions := checked.db.sessions)
  {
    if !ValidSession(db, r.sessionId, now) then Checked(Stopped(InvalidSession), db)
    else
      var seen := Touch(db, r.sessionId, now);
      if !ServiceOpen(db, r.serviceId) || !MayEnter(db, db.sessions[r.sessionId].userId, r.serviceId)
      then Checked(Stopped(NotAuthorized), seen)
      else
        var cleared := HasChecked(r.token, r.sessionId, r.serviceId, r.at, db.sessions[r.sessionId].expiresAt);
        Checked(Continues(cleared), seen)
  }

  /** The conditional UPDATE of `consumed_at`. */
  ghost function SetConsumed(db: Db, r: Redemption): (txn: Txn)
    requires r.HasChecked?
    ensures txn.db == db.(tickets := txn.db.tickets)
  {
    if r.token in db.tickets && db.tickets[r.token].consumedAt.None?
    then Txn(Success, db.(tickets := db.tickets[r.token := db.tickets[r.token].(consumedAt := Some(r.at))]))
    else Txn(InvalidLaunchTicket, db)
  }

  /** `consume_launch_ticket` run without interruption; the clock is read twice. */
  ghost function ConsumeLaunchTicket(db: Db, token: nat, service: nat, now: int, later: int): Txn {
    var read := ReadTicket(db, token, service, now);
    if read.Stopped? then Txn(read.outcome, db)
    else
      var checked := CheckTicket(db, read.redemption, later);
      if checked.progress.Stopped? then Txn(checked.progress.outcome, checked.db)
      else SetConsumed(checked.db, checked.progress.redemption)
  }

  /** `authorize_proxy_cookie`. `issued` are the cookies signed so far: no other value decodes. */
  ghost function AuthorizeCookie(db: Db, issued: set<Cookie>, cookie: Cookie, service: nat, now: int): (txn: Txn)
    ensures txn.db == db.(sessions := txn.db.sessions)
  {
    if cookie !in issued || cookie.expiresAt <= now then Txn(InvalidProxyCredential, db)
    else if cookie.serviceId != service then Txn(ServiceMismatch, db)
    else if !ValidSession(db, cookie.sessionId, now) then Txn(InvalidSession, db)
    else
      var seen := Touch(db, cookie.sessionId, now);
      if !ServiceOpen(db, service) then Txn(ServiceUnavailable, seen)
      else if !MayEnter(db, db.sessions[cookie.sessionId].userId, service) then Txn(NotAuthorized, seen)
      else Txn(Success, seen)
  }
}

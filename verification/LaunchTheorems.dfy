/** From the service list to an accepted cookie: the way a user takes through the proxy. */
module LaunchTheorems {
  import opened Text
  import opened Records
  import opened StoreInvariant
  import opened StoreSteps
  import opened PortalMachine
  import opened PortalSafety
  import UserAdmin
  import ServiceCatalog
  import ProxyAuthorization

  lemma SameAccess(a: Db, b: Db, user: nat, service: nat)
    requires b.users == a.users && b.groups == a.groups && b.memberships == a.memberships
    requires b.services == a.services && b.rules == a.rules
    ensures MayEnter(b, user, service) <==> MayEnter(a, user, service)
  {
    assert forall g :: Grants(b, g, user, service) <==> Grants(a, g, user, service);
  }

  /** `enter_service` answered with a ticket. */
  ghost predicate Launched(db: Db, sid: nat, slug: string, ttl: int, now: int) {
    && ProxyAuthorization.EnterService(db, sid, slug, ttl, now).outcome == Success
    && ProxyAuthorization.EnterService(db, sid, slug, ttl, now).db.entropy == db.entropy + 1
  }

  /** The store and the ticket after a launch. */
  lemma LaunchFacts(db: Db, sid: nat, slug: string, ttl: int, now: int)
    requires Inv(db) && Launched(db, sid, slug, ttl, now)
    ensures
      var after := ProxyAuthorization.EnterService(db, sid, slug, ttl, now).db;
      var token := db.entropy;
      && ValidSession(db, sid, now)
      && token !in db.tickets
      && after == Touch(db, sid, now).(tickets := after.tickets, entropy := token + 1)
      && after.tickets == db.tickets[token := Ticket(sid, after.tickets[token].serviceId, now + ttl, None)]
      && var service := after.tickets[token].serviceId;
      && Some(service) == ServiceCatalog.SlugOwner(db, slug)
      && ProxyAuthorization.ServiceOpen(after, service)
      && MayEnter(after, db.sessions[sid].userId, service)
  {
    hide Inv, MayEnter, ServiceCatalog.SlugOwner;
    DrawIsNew(db);
    var after := ProxyAuthorization.EnterService(db, sid, slug, ttl, now).db;
    SameAccess(db, after, db.sessions[sid].userId, after.tickets[db.entropy].serviceId);
  }

  /** Straight after a launch the ticket is good, for its own service only, until it or the session
      expires; redeemed, it is never good again, and the cookie its winner is given is accepted
      for that service as long as the session lasts. */
  lemma LaunchRoundTrip(start: World, ops: seq<Op>, sid: nat, slug: string, ttl: int, now: int, service: nat, at: int)
    requires Initial(start) && Launched(Run(start, ops).db, sid, slug, ttl, now)
    ensures
      var db := Run(start, ops).db;
      var token := db.entropy;
      var after := ProxyAuthorization.EnterService(db, sid, slug, ttl, now).db;
      var redeemed := ProxyAuthorization.ConsumeLaunchTicket(after, token, service, at, at);
      && (redeemed.outcome == Success <==>
            Some(service) == ServiceCatalog.SlugOwner(db, slug) && at < now + ttl && at < db.sessions[sid].expiresAt)
      && (redeemed.outcome == Success ==>
            var cookie := Cookie(sid, service, db.sessions[sid].expiresAt);
            && (forall again: int, other: nat ::
                  ProxyAuthorization.ConsumeLaunchTicket(redeemed.db, token, other, again, again) ==
                    Txn(InvalidLaunchTicket, redeemed.db))
            && (forall t: int ::
                  ProxyAuthorization.AuthorizeCookie(redeemed.db, {cookie}, cookie, service, t).outcome == Success <==>
                    t < db.sessions[sid].expiresAt))
  {
    hide WorkersSound, WinsSound, Run, Inv, Launched, MayEnter, ServiceCatalog.SlugOwner, ProxyAuthorization.EnterService;
    ReachableIsSafe(start, ops);
    var db := Run(start, ops).db;
    LaunchFacts(db, sid, slug, ttl, now);
    var after := ProxyAuthorization.EnterService(db, sid, slug, ttl, now).db;
    var redeemed := ProxyAuthorization.ConsumeLaunchTicket(after, db.entropy, service, at, at);
    SameAccess(after, redeemed.db, db.sessions[sid].userId, service);
  }

  /** The last two steps of a redemption, from its checks on. */
  lemma ChecksAndMark(w: World, worker: nat, later: int)
    requires worker in w.redemptions && w.redemptions[worker].HasRead?
    ensures
      var r := w.redemptions[worker];
      var v := Step(Step(w, CheckTicket(worker, later)), SetConsumed(worker));
      var checked := ProxyAuthorization.CheckTicket(w.db, r, later);
      if checked.progress.Stopped? then v.db == checked.db && v.cookies == w.cookies
      else
        var txn := ProxyAuthorization.SetConsumed(checked.db, checked.progress.redemption);
        && v.db == txn.db
        && v.cookies == (
             if txn.outcome != Success then w.cookies
             else w.cookies + {Cookie(r.sessionId, r.serviceId, w.db.sessions[r.sessionId].expiresAt)})
  {
    hide MayEnter, ValidSession, ProxyAuthorization.ServiceOpen, ProxyAuthorization.SetConsumed;
  }

  /** A redemption that nothing interrupts is the service call: its three steps leave the store
      and hand out the cookie that one call does. */
  lemma UninterruptedRedemption(w: World, worker: nat, token: nat, service: nat, now: int, later: int)
    requires worker !in w.redemptions
    ensures
      var v := Run(w, [ReadTicket(worker, token, service, now), CheckTicket(worker, later), SetConsumed(worker)]);
      var txn := ProxyAuthorization.ConsumeLaunchTicket(w.db, token, service, now, later);
      && v.db == txn.db
      && v.cookies == (
           if txn.outcome != Success then w.cookies
           else
             var sid := w.db.tickets[token].sessionId;
             w.cookies + {Cookie(sid, service, w.db.sessions[sid].expiresAt)})
  {
    hide MayEnter, ProxyAuthorization.CheckTicket, ProxyAuthorization.SetConsumed, Run;
    RunOfThree(w, ReadTicket(worker, token, service, now), CheckTicket(worker, later), SetConsumed(worker));
    var w1 := Step(w, ReadTicket(worker, token, service, now));
    if worker in w1.redemptions {
      ChecksAndMark(w1, worker, later);
      if ProxyAuthorization.CheckTicket(w.db, w1.redemptions[worker], later).progress.Stopped? {
        StoppedIsRefused(w.db, w1.redemptions[worker], later);
      }
    } else {
      assert Step(w1, CheckTicket(worker, later)) == w1;
    }
  }

  lemma StoppedIsRefused(db: Db, r: ProxyAuthorization.Redemption, now: int)
    requires r.HasRead?
    ensures ProxyAuthorization.CheckTicket(db, r, now).progress.Stopped? ==>
      ProxyAuthorization.CheckTicket(db, r, now).progress.outcome != Success
  {}

  lemma RunOfThree(w: World, a: Op, b: Op, c: Op)
    ensures Run(w, [a, b, c]) == Step(Step(Step(w, a), b), c)
  {
    hide Step;
    assert Run(Step(Step(w, a), b), [c]) == Run(Step(Step(Step(w, a), b), c), []);
    assert [a, b, c][1..] == [b, c] && [b, c][1..] == [c];
    assert Run(Step(w, a), [b, c]) == Run(Step(Step(w, a), b), [c]);
  }

  // ---- exactly when a way is open ----

  /** The service exists, is enabled and proxied. */
  predicate Proxied(db: Db, service: nat) {
    service in db.services && db.services[service].enabled && db.services[service].policy.proxy
  }

  /** In a reachable store a service is entered exactly by the owner of a valid session whose
      credential is permanent, who may enter an enabled service of that slug, proxied or not; a
      ticket is issued exactly when it is proxied, for that session and service. */
  lemma EntrySucceedsIff(start: World, ops: seq<Op>, sid: nat, slug: string, ttl: int, now: int)
    requires Initial(start)
    ensures
      var db := Run(start, ops).db;
      var txn := ProxyAuthorization.EnterService(db, sid, slug, ttl, now);
      && (txn.outcome == Success <==>
            && ValidSession(db, sid, now)
            && db.users[db.sessions[sid].userId].credential == Permanent
            && exists service: nat :: Enterable(db, db.sessions[sid].userId, service, slug))
      && (txn.outcome == Success ==>
            forall service: nat | Enterable(db, db.sessions[sid].userId, service, slug) ::
              txn.db.tickets ==
                if db.services[service].policy.proxy
                then db.tickets[db.entropy := Ticket(sid, service, now + ttl, None)] else db.tickets)
  {
    hide WorkersSound, WinsSound, Run, MayEnter, ServiceCatalog.SlugOwner, Enterable;
    ReachableIsSafe(start, ops);
    var db := Run(start, ops).db;
    if ValidSession(db, sid, now) {
      var user := db.sessions[sid].userId;
      forall service: nat ensures Enterable(db, user, service, slug) <==>
        && ServiceCatalog.SlugOwner(db, slug) == Some(service)
        && db.services[service].enabled && MayEnter(db, user, service)
      {
        EnterableIsOwner(db, user, service, slug);
      }
      var owner := ServiceCatalog.SlugOwner(db, slug);
      if owner.Some? { assert Enterable(db, user, owner.value, slug) <==> db.services[owner.value].enabled && MayEnter(db, user, owner.value); }
    }
  }

  ghost predicate Enterable(db: Db, user: nat, service: nat, slug: string) {
    && service in db.services && db.services[service].slug == slug
    && db.services[service].enabled && MayEnter(db, user, service)
  }

  lemma EnterableIsOwner(db: Db, user: nat, service: nat, slug: string)
    requires SlugsUnique(db)
    ensures Enterable(db, user, service, slug) <==>
      && ServiceCatalog.SlugOwner(db, slug) == Some(service)
      && db.services[service].enabled && MayEnter(db, user, service)
  {
    hide MayEnter;
    var owner := ServiceCatalog.SlugOwner(db, slug);
    if owner.Some? { assert ServiceCatalog.HasSlug(db, owner.value, slug); }
  }

  /** An uninterrupted redemption goes through exactly with an unused, unexpired ticket of this
      service whose session still validates, for a proxied service its owner may still enter; then
      just that ticket is marked, with the time it was read. */
  lemma RedemptionSucceedsIff(db: Db, token: nat, service: nat, now: int, later: int)
    ensures
      var txn := ProxyAuthorization.ConsumeLaunchTicket(db, token, service, now, later);
      && (txn.outcome == Success <==>
            && token in db.tickets && db.tickets[token].serviceId == service
            && db.tickets[token].consumedAt.None? && db.tickets[token].expiresAt > now
            && ValidSession(db, db.tickets[token].sessionId, later) && Proxied(db, service)
            && MayEnter(db, db.sessions[db.tickets[token].sessionId].userId, service))
      && (txn.outcome == Success ==>
            txn.db.tickets == db.tickets[token := db.tickets[token].(consumedAt := Some(now))])
      && (txn.outcome != Success ==> txn.db.tickets == db.tickets)
  {
    hide MayEnter;
  }

  /** At position `i` of the run a redemption for this session and service was cleared: the session
      validated, and its owner could enter the proxied service. */
  ghost predicate ClearedAt(start: World, ops: seq<Op>, i: nat, sid: nat, service: nat) {
    && i < |ops| && ops[i].CheckTicket?
    && var db := Run(start, ops[..i]).db;
    && ValidSession(db, sid, ops[i].now) && Proxied(db, service)
    && MayEnter(db, db.sessions[sid].userId, service)
  }

  ghost predicate Cleared(start: World, ops: seq<Op>, sid: nat, service: nat) {
    exists i: nat :: ClearedAt(start, ops, i, sid, service)
  }

  ghost predicate AllCleared(start: World, ops: seq<Op>) {
    var w := Run(start, ops);
    && (forall k | k in w.redemptions && w.redemptions[k].HasChecked? ::
          Cleared(start, ops, w.redemptions[k].sessionId, w.redemptions[k].serviceId))
    && (forall win | win in w.wins :: Cleared(start, ops, win.sessionId, win.serviceId))
  }

  /** However requests interleave, whoever redeems a ticket passed the session, service and access
      checks for its session and service at some moment of the run. */
  lemma {:induction false} WinnersWereCleared(start: World, ops: seq<Op>)
    requires Initial(start)
    ensures AllCleared(start, ops)
    decreases |ops|
  {
    if ops != [] {
      hide Initial, Step, AllCleared, Run;
      var n := |ops| - 1;
      WinnersWereCleared(start, ops[..n]);
      LastStep(start, ops);
      ClearedOneMore(start, ops);
    }
  }

  lemma LastStep(start: World, ops: seq<Op>)
    requires ops != []
    ensures Run(start, ops) == Step(Run(start, ops[..|ops| - 1]), ops[|ops| - 1])
  {
    hide Step;
    var n := |ops| - 1;
    var before := Run(start, ops[..n]);
    assert ops == ops[..n] + [ops[n]];
    RunSplits(start, ops[..n], [ops[n]]);
    assert Run(before, [ops[n]]) == Run(Step(before, ops[n]), []);
  }

  lemma ClearedLonger(start: World, ops: seq<Op>, n: nat, sid: nat, service: nat)
    requires n <= |ops| && Cleared(start, ops[..n], sid, service)
    ensures Cleared(start, ops, sid, service)
  {
    hide Run, MayEnter, ValidSession;
    var i: nat :| ClearedAt(start, ops[..n], i, sid, service);
    assert ops[..n][..i] == ops[..i];
    assert ClearedAt(start, ops, i, sid, service);
  }

  /** What a step can add: a cleared redemption only by its checks, a winner only from a cleared one. */
  lemma StepClears(w: World, op: Op)
    ensures
      var v := Step(w, op);
      && (forall k | k in v.redemptions && v.redemptions[k].HasChecked? ::
            || (k in w.redemptions && w.redemptions[k] == v.redemptions[k])
            || (&& op.CheckTicket? && var r := v.redemptions[k];
                && ValidSession(w.db, r.sessionId, op.now) && Proxied(w.db, r.serviceId)
                && MayEnter(w.db, w.db.sessions[r.sessionId].userId, r.serviceId)))
      && (forall win | win in v.wins ::
            || win in w.wins
            || exists k :: && k in w.redemptions && w.redemptions[k].HasChecked?
                           && w.redemptions[k].sessionId == win.sessionId && w.redemptions[k].serviceId == win.serviceId)
  {
    hide Answer, MayEnter, ValidSession;
    hide UserAdmin.ReadMemberships, UserAdmin.CommitMemberships, ServiceCatalog.ReadForCheck, ServiceCatalog.WriteVerdict;
    hide ProxyAuthorization.ReadTicket, ProxyAuthorization.SetConsumed;
  }

  lemma ClearedOneMore(start: World, ops: seq<Op>)
    requires ops != [] && AllCleared(start, ops[..|ops| - 1])
    requires Run(start, ops) == Step(Run(start, ops[..|ops| - 1]), ops[|ops| - 1])
    ensures AllCleared(start, ops)
  {
    hide Step, Run, MayEnter, ValidSession, Cleared, Proxied;
    var n := |ops| - 1;
    var w := Run(start, ops[..n]);
    var v := Run(start, ops);
    StepClears(w, ops[n]);
    forall k | k in v.redemptions && v.redemptions[k].HasChecked?
      ensures Cleared(start, ops, v.redemptions[k].sessionId, v.redemptions[k].serviceId)
    {
      if k in w.redemptions && w.redemptions[k] == v.redemptions[k] {
        ClearedLonger(start, ops, n, v.redemptions[k].sessionId, v.redemptions[k].serviceId);
      } else {
        ClearedNow(start, ops, v.redemptions[k].sessionId, v.redemptions[k].serviceId);
      }
    }
    forall win | win in v.wins ensures Cleared(start, ops, win.sessionId, win.serviceId) {
      ClearedLonger(start, ops, n, win.sessionId, win.serviceId);
    }
  }

  lemma ClearedNow(start: World, ops: seq<Op>, sid: nat, service: nat)
    requires ops != [] && ops[|ops| - 1].CheckTicket?
    requires var db := Run(start, ops[..|ops| - 1]).db;
      && ValidSession(db, sid, ops[|ops| - 1].now) && Proxied(db, service)
      && MayEnter(db, db.sessions[sid].userId, service)
    ensures Cleared(start, ops, sid, service)
  {
    hide Run, MayEnter;
    assert ClearedAt(start, ops, |ops| - 1, sid, service);
  }

  /** In any run a cookie is accepted for a service exactly when it was signed here for that very
      service and has not expired, its session validates, the service is proxied and the owner may
      enter it; and then somebody redeemed a ticket of that session and service. */
  lemma CookieAcceptedIff(start: World, ops: seq<Op>, cookie: Cookie, service: nat, now: int)
    requires Initial(start)
    ensures
      var w := Run(start, ops);
      var txn := Answer(w.db, w.cookies, AuthorizeCookie(cookie, service, now));
      && (txn.outcome == Success <==>
            && cookie in w.cookies && cookie.serviceId == service && cookie.expiresAt > now
            && ValidSession(w.db, cookie.sessionId, now) && Proxied(w.db, service)
            && MayEnter(w.db, w.db.sessions[cookie.sessionId].userId, service))
      && (txn.outcome == Success ==>
            exists win :: win in w.wins && win.sessionId == cookie.sessionId && win.serviceId == service)
  {
    hide Inv, WorkersSound, Run, MayEnter, ValidSession;
    var w := Run(start, ops);
    ReachableIsSafe(start, ops);
    if cookie in w.cookies {
      assert Backed(w, cookie);
    }
  }
}

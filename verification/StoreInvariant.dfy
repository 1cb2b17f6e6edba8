/** What every committed state satisfies, and how one committed state relates to a later one,
    concern by concern: accounts, sessions, reset requests, launch tickets, catalogue. */
module StoreInvariant {
  import opened Text
  import opened Records

  // ---- accounts ----

  ghost predicate EmailsUnique(db: Db) {
    forall u, v | u in db.users && v in db.users && u != v ::
      db.users[u].normalizedEmail != db.users[v].normalizedEmail
  }

  ghost predicate EmailsFolded(db: Db) {
    forall u | u in db.users :: db.users[u].normalizedEmail == CaseFold(db.users[u].email)
  }

  predicate Installed(db: Db) {
    db.installation.Some? && db.installation.value.initialized
  }

  ghost predicate HasAdmin(db: Db) {
    exists user :: IsAdmin(db, user)
  }

  /** Either nothing is set up, or somebody can manage the portal. */
  ghost predicate Recoverable(db: Db) {
    (db.users == map[] && !Installed(db)) || (Installed(db) && HasAdmin(db))
  }

  ghost predicate AccountsOk(db: Db) {
    && (forall u | u in db.users :: db.users[u].life < db.entropy && db.users[u].credential != SetupRequired)
    && EmailsFolded(db)
    && (forall u: nat, g: nat | (u, g) in db.memberships :: u in db.users)
    && EmailsUnique(db)
    && Recoverable(db)
  }

  /** `u` names the same person in both states, not a successor under a reused id. */
  ghost predicate SameLife(a: Db, b: Db, u: nat) {
    u in a.users && u in b.users && a.users[u].life == b.users[u].life
  }

  /** Everything the revision number is a version of. */
  ghost predicate SameAccount(a: Db, b: Db, u: nat)
    requires u in a.users && u in b.users
  {
    a.users[u] == b.users[u] && forall g: nat :: (u, g) in a.memberships <==> (u, g) in b.memberships
  }

  /** A user of `b` whose life began before `a` was alive in `a`. */
  ghost predicate LivesContinue(a: Db, b: Db) {
    && a.entropy <= b.entropy
    && forall u | u in b.users && b.users[u].life < a.entropy :: SameLife(a, b, u)
  }

  ghost predicate Versioned(a: Db, b: Db) {
    forall u | SameLife(a, b, u) ::
      && a.users[u].revision <= b.users[u].revision
      && (a.users[u].revision == b.users[u].revision ==> SameAccount(a, b, u))
      && (a.users[u].credential == Permanent ==> b.users[u].credential == Permanent)
  }

  ghost predicate AccountsEvolve(a: Db, b: Db) {
    LivesContinue(a, b) && Versioned(a, b) && (Installed(a) ==> Installed(b))
  }

  /** One step either leaves an account alone or raises its revision by exactly one. */
  ghost predicate BumpsByOne(a: Db, b: Db) {
    forall u | SameLife(a, b, u) :: SameAccount(a, b, u) || b.users[u].revision == a.users[u].revision + 1
  }

  // ---- sessions ----

  ghost predicate SessionsOk(db: Db) {
    forall sid | sid in db.sessions :: sid < db.entropy && db.sessions[sid].userId in db.users
  }

  ghost predicate SessionsEvolve(a: Db, b: Db) {
    forall sid | sid in b.sessions && sid < a.entropy ::
      && sid in a.sessions
      && b.sessions[sid].userId == a.sessions[sid].userId
      && b.sessions[sid].expiresAt == a.sessions[sid].expiresAt
      && (a.sessions[sid].revokedAt.Some? ==> b.sessions[sid].revokedAt.Some?)
      && SameLife(a, b, a.sessions[sid].userId)
  }

  // ---- reset requests ----

  ghost predicate OneOpenReset(db: Db) {
    forall t, r | t in db.resets && r in db.resets && db.resets[t].Open() && db.resets[r].Open() && t != r ::
      db.resets[t].userId != db.resets[r].userId
  }

  ghost predicate ResetsOk(db: Db) {
    && (forall token | token in db.resets :: token < db.entropy && db.resets[token].userId in db.users)
    && OneOpenReset(db)
  }

  ghost predicate ResetsEvolve(a: Db, b: Db) {
    forall token | token in b.resets && token < a.entropy ::
      && token in a.resets
      && b.resets[token].userId == a.resets[token].userId
      && b.resets[token].expiresAt == a.resets[token].expiresAt
      && (b.resets[token].Open() ==> a.resets[token].Open())
      && SameLife(a, b, a.resets[token].userId)
  }

  // ---- launch tickets ----

  /** The owner of a session that still exists replaced the temporary credential. */
  ghost predicate Upgraded(db: Db, sid: nat) {
    sid in db.sessions && db.sessions[sid].userId in db.users ==>
      db.users[db.sessions[sid].userId].credential == Permanent
  }

  ghost predicate TicketsOk(db: Db) {
    forall token | token in db.tickets ::
      && token < db.entropy
      && db.tickets[token].sessionId < db.entropy
      && db.tickets[token].serviceId in db.services
      && Upgraded(db, db.tickets[token].sessionId)
  }

  ghost predicate TicketsEvolve(a: Db, b: Db) {
    && (forall token | token in a.tickets ::
          && token in b.tickets
          && b.tickets[token].sessionId == a.tickets[token].sessionId
          && b.tickets[token].serviceId == a.tickets[token].serviceId
          && (a.tickets[token].consumedAt.Some? ==> b.tickets[token].consumedAt == a.tickets[token].consumedAt))
    && (forall token | token in b.tickets && token < a.entropy :: token in a.tickets)
  }

  // ---- catalogue ----

  /** Names are stored with their fold, which is unique. */
  ghost predicate GroupNamesOk(db: Db) {
    && (forall g | g in db.groups :: db.groups[g].normalizedName == CaseFold(db.groups[g].name))
    && forall g, h | g in db.groups && h in db.groups && g != h ::
      db.groups[g].normalizedName != db.groups[h].normalizedName
  }

  ghost predicate SlugsUnique(db: Db) {
    forall s, t | s in db.services && t in db.services && s != t :: db.services[s].slug != db.services[t].slug
  }

  ghost predicate HasRule(db: Db, service: nat) {
    exists group: nat :: (service, group) in db.rules
  }

  ghost predicate CatalogueOk(db: Db) {
    && (forall s: nat, g: nat | (s, g) in db.rules :: s in db.services && g in db.groups)
    && GroupNamesOk(db)
    && SlugsUnique(db)
    && (forall s | s in db.services :: db.services[s].enabled ==> HasRule(db, s))
    && (forall s | s in db.services :: db.services[s].policy.websocket ==> db.services[s].policy.proxy)
  }

  ghost predicate ServicesStay(a: Db, b: Db) {
    a.services.Keys <= b.services.Keys
  }

  // ---- the whole store ----

  ghost predicate Inv(db: Db) {
    AccountsOk(db) && SessionsOk(db) && ResetsOk(db) && TicketsOk(db) && CatalogueOk(db)
  }

  ghost predicate Evolves(a: Db, b: Db) {
    AccountsEvolve(a, b) && SessionsEvolve(a, b) && ResetsEvolve(a, b) && TicketsEvolve(a, b) && ServicesStay(a, b)
  }

  ghost predicate AccountsStep(a: Db, b: Db) { AccountsOk(b) && AccountsEvolve(a, b) && BumpsByOne(a, b) }
  ghost predicate SessionsStep(a: Db, b: Db) { SessionsOk(b) && SessionsEvolve(a, b) }
  ghost predicate ResetsStep(a: Db, b: Db) { ResetsOk(b) && ResetsEvolve(a, b) }
  ghost predicate TicketsStep(a: Db, b: Db) { TicketsOk(b) && TicketsEvolve(a, b) }
  ghost predicate CatalogueStep(a: Db, b: Db) { CatalogueOk(b) && ServicesStay(a, b) }

  /** What one step of the store keeps. */
  ghost predicate GoodStep(a: Db, b: Db) {
    AccountsStep(a, b) && SessionsStep(a, b) && ResetsStep(a, b) && TicketsStep(a, b) && CatalogueStep(a, b)
  }

  // ---- time ----

  /** A life seen at both ends was lived in between. */
  lemma LifeBetween(a: Db, b: Db, c: Db, u: nat)
    requires AccountsOk(a) && LivesContinue(a, b) && LivesContinue(b, c) && SameLife(a, c, u)
    ensures SameLife(a, b, u) && SameLife(b, c, u)
  {
    assert c.users[u].life < a.entropy <= b.entropy;
  }

  lemma AccountsTransitive(a: Db, b: Db, c: Db)
    requires AccountsOk(a) && AccountsEvolve(a, b) && AccountsEvolve(b, c)
    ensures AccountsEvolve(a, c)
  {
    forall u | SameLife(a, c, u)
      ensures a.users[u].revision <= c.users[u].revision
      ensures a.users[u].revision == c.users[u].revision ==> SameAccount(a, c, u)
      ensures a.users[u].credential == Permanent ==> c.users[u].credential == Permanent
    {
      LifeBetween(a, b, c, u);
    }
    forall u | u in c.users && c.users[u].life < a.entropy ensures SameLife(a, c, u) {
      assert SameLife(b, c, u);
      assert SameLife(a, b, u);
    }
  }

  lemma EvolvesTransitive(a: Db, b: Db, c: Db)
    requires AccountsOk(a) && Evolves(a, b) && Evolves(b, c)
    ensures Evolves(a, c)
  {
    AccountsTransitive(a, b, c);
    assert SessionsEvolve(a, c);
    assert ResetsEvolve(a, c);
    assert TicketsEvolve(a, c);
  }

  lemma Unchanged(db: Db)
    requires Inv(db)
    ensures GoodStep(db, db)
  {
    assert AccountsStep(db, db);
    assert SessionsStep(db, db);
    assert ResetsStep(db, db);
    assert TicketsStep(db, db);
  }

  // ---- accounts, by kind of write ----

  lemma AccountsHold(db: Db)
    requires Inv(db)
    ensures AccountsOk(db)
  {}

  lemma AccountsAlone(a: Db, b: Db)
    requires Inv(a)
    requires b.users == a.users && b.memberships == a.memberships && b.installation == a.installation
    requires a.entropy <= b.entropy
    ensures AccountsStep(a, b)
  {
    hide Inv, CaseFold;
    AccountsHold(a);
    if HasAdmin(a) {
      var user :| IsAdmin(a, user);
      assert IsAdmin(b, user);
    }
  }

  /** Row `t` was rewritten under its own id, its memberships possibly replaced. */
  ghost predicate Rewritten(a: Db, b: Db, t: nat) {
    && t in a.users
    && a.entropy <= b.entropy
    && b.installation == a.installation
    && b.users.Keys == a.users.Keys
    && (forall u | u in a.users && u != t :: b.users[u] == a.users[u])
    && (forall u: nat, g: nat | u != t :: (u, g) in b.memberships <==> (u, g) in a.memberships)
    && b.users[t].life == a.users[t].life
    && b.users[t].revision == a.users[t].revision + 1
    && (b.users[t].credential == Permanent || b.users[t].credential == a.users[t].credential)
    && b.users[t].normalizedEmail == CaseFold(b.users[t].email)
    && (b.users[t].normalizedEmail == a.users[t].normalizedEmail ||
        !EmailTaken(a, b.users[t].normalizedEmail, Some(t)))
  }

  lemma RewrittenEvolves(a: Db, b: Db, t: nat)
    requires Rewritten(a, b, t)
    ensures AccountsEvolve(a, b) && BumpsByOne(a, b)
  {
    forall u | SameLife(a, b, u)
      ensures SameAccount(a, b, u) || b.users[u].revision == a.users[u].revision + 1
      ensures a.users[u].revision == b.users[u].revision ==> SameAccount(a, b, u)
    {
      if u != t { assert SameAccount(a, b, u); }
    }
  }

  lemma AccountRewritten(a: Db, b: Db, t: nat)
    requires Inv(a) && Rewritten(a, b, t) && HasAdmin(b)
    requires forall u: nat, g: nat | (u, g) in b.memberships :: u in a.users
    ensures AccountsStep(a, b)
  {
    hide Inv, AccountsOk, AccountsEvolve, BumpsByOne;
    AccountsHold(a);
    RewrittenEvolves(a, b, t);
    RewrittenOk(a, b, t);
  }

  lemma RewrittenOk(a: Db, b: Db, t: nat)
    requires AccountsOk(a) && Rewritten(a, b, t) && HasAdmin(b)
    requires forall u: nat, g: nat | (u, g) in b.memberships :: u in a.users
    ensures AccountsOk(b)
  {
    hide EmailsUnique, EmailsFolded, HasAdmin, CaseFold;
    RewrittenEmails(a, b, t);
    assert a.users != map[];
  }

  lemma RewrittenEmails(a: Db, b: Db, t: nat)
    requires EmailsUnique(a) && EmailsFolded(a) && Rewritten(a, b, t)
    ensures EmailsUnique(b) && EmailsFolded(b)
  {
    hide CaseFold;
  }

  /** A rewrite that leaves status and flag alone costs no administrator. */
  lemma AdminSurvives(a: Db, b: Db, t: nat)
    requires Inv(a) && Rewritten(a, b, t)
    requires b.users[t].status == a.users[t].status && b.users[t].isAdmin == a.users[t].isAdmin
    ensures HasAdmin(b)
  {
    hide Inv, CaseFold;
    AccountsHold(a);
    assert a.users != map[];
    var user :| IsAdmin(a, user);
    assert IsAdmin(b, user);
  }

  /** A row was inserted under an unused id, its life drawn from the random source. */
  lemma AccountAdded(a: Db, b: Db, t: nat)
    requires Inv(a) && t !in a.users
    requires b.users.Keys == a.users.Keys + {t}
    requires forall u | u in a.users :: b.users[u] == a.users[u]
    requires forall u: nat, g: nat | u != t :: (u, g) in b.memberships <==> (u, g) in a.memberships
    requires b.users[t].life == a.entropy < b.entropy && b.users[t].credential != SetupRequired
    requires b.users[t].normalizedEmail == CaseFold(b.users[t].email)
    requires forall u | u in a.users :: a.users[u].normalizedEmail != b.users[t].normalizedEmail
    requires Installed(b) && HasAdmin(b)
    ensures AccountsStep(a, b)
  {
    hide Inv, HasAdmin, EmailsUnique, EmailsFolded, CaseFold;
    AccountsHold(a);
    AddedEmails(a, b, t);
    forall u | SameLife(a, b, u) ensures SameAccount(a, b, u) {}
  }

  lemma AddedEmails(a: Db, b: Db, t: nat)
    requires EmailsUnique(a) && EmailsFolded(a) && b.users.Keys == a.users.Keys + {t}
    requires forall u | u in a.users :: b.users[u] == a.users[u]
    requires b.users[t].normalizedEmail == CaseFold(b.users[t].email)
    requires forall u | u in a.users :: a.users[u].normalizedEmail != b.users[t].normalizedEmail
    ensures EmailsUnique(b) && EmailsFolded(b)
  {
    hide CaseFold;
  }

  /** A row was deleted with its memberships. */
  lemma AccountDropped(a: Db, b: Db, t: nat)
    requires Inv(a) && t in a.users && b.entropy == a.entropy
    requires b.users == a.users - {t} && b.installation == a.installation
    requires forall u: nat, g: nat :: (u, g) in b.memberships <==> u != t && (u, g) in a.memberships
    requires HasAdmin(b)
    ensures AccountsStep(a, b)
  {
    hide Inv, CaseFold;
    AccountsHold(a);
    forall u | SameLife(a, b, u) ensures SameAccount(a, b, u) {}
    assert a.users != map[];
  }

  // ---- sessions ----

  ghost predicate OwnerLivesOn(a: Db, b: Db, user: nat) {
    user in a.users ==> SameLife(a, b, user)
  }

  /** Sessions may be touched, revoked, dropped or added; owners of those that stay live on. */
  lemma SessionsMoved(a: Db, b: Db)
    requires Inv(a) && a.entropy <= b.entropy
    requires forall sid | sid in b.sessions && sid !in a.sessions ::
      a.entropy <= sid < b.entropy && b.sessions[sid].userId in b.users
    requires forall sid | sid in b.sessions && sid in a.sessions ::
      && b.sessions[sid].userId == a.sessions[sid].userId
      && b.sessions[sid].expiresAt == a.sessions[sid].expiresAt
      && (a.sessions[sid].revokedAt.Some? ==> b.sessions[sid].revokedAt.Some?)
      && OwnerLivesOn(a, b, a.sessions[sid].userId)
    ensures SessionsStep(a, b)
  {}

  // ---- reset requests ----

  /** Requests may close or go, and their author may be forgotten. */
  lemma ResetsClosed(a: Db, b: Db)
    requires Inv(a) && a.entropy <= b.entropy
    requires b.resets.Keys <= a.resets.Keys
    requires forall token | token in b.resets ::
      && b.resets[token].userId == a.resets[token].userId
      && b.resets[token].expiresAt == a.resets[token].expiresAt
      && (b.resets[token].Open() ==> a.resets[token].Open())
      && OwnerLivesOn(a, b, a.resets[token].userId)
    ensures ResetsStep(a, b)
  {}

  // ---- launch tickets ----

  lemma UpgradedStays(a: Db, b: Db, sid: nat)
    requires SessionsOk(a) && SessionsEvolve(a, b) && AccountsEvolve(a, b)
    requires sid < a.entropy && Upgraded(a, sid)
    ensures Upgraded(b, sid)
  {
    if sid in b.sessions {
      assert SameLife(a, b, a.sessions[sid].userId);
    }
  }

  lemma TicketsAlone(a: Db, b: Db)
    requires Inv(a) && b.tickets == a.tickets && ServicesStay(a, b)
    requires AccountsStep(a, b) && SessionsStep(a, b)
    ensures TicketsStep(a, b)
  {
    forall token | token in b.tickets ensures Upgraded(b, b.tickets[token].sessionId) {
      UpgradedStays(a, b, b.tickets[token].sessionId);
    }
  }

  lemma TicketFacts(db: Db)
    requires Inv(db)
    ensures TicketsOk(db) && SessionsOk(db)
    ensures forall u | u in db.users :: db.users[u].credential != SetupRequired
  {}

  /** A ticket was issued to the session of a user whose credential is not temporary. */
  lemma TicketIssued(a: Db, b: Db, ticket: Ticket)
    requires Inv(a) && b.users == a.users && b.services == a.services
    requires b.tickets == a.tickets[a.entropy := ticket] && b.entropy == a.entropy + 1
    requires b.sessions.Keys == a.sessions.Keys
    requires forall sid | sid in a.sessions :: b.sessions[sid].userId == a.sessions[sid].userId
    requires ticket.sessionId in a.sessions && ticket.serviceId in a.services
    requires a.users[a.sessions[ticket.sessionId].userId].credential != Temporary
    ensures TicketsStep(a, b)
  {
    hide Inv;
    TicketFacts(a);
    forall token | token in b.tickets ensures Upgraded(b, b.tickets[token].sessionId) {
      if token != a.entropy { assert Upgraded(a, a.tickets[token].sessionId); }
    }
  }

  /** A ticket not consumed before is consumed. */
  lemma TicketConsumed(a: Db, b: Db, token: nat, at: int)
    requires Inv(a) && token in a.tickets && a.tickets[token].consumedAt.None?
    requires b == a.(tickets := a.tickets[token := a.tickets[token].(consumedAt := Some(at))])
    ensures TicketsStep(a, b)
  {
    hide Inv;
    TicketFacts(a);
    forall t | t in b.tickets ensures Upgraded(b, b.tickets[t].sessionId) {
      assert Upgraded(a, a.tickets[t].sessionId);
    }
  }

  // ---- catalogue ----

  /** Groups may come, change or go as long as no rule loses its group and names stay unique. */
  lemma GroupsMoved(a: Db, b: Db)
    requires Inv(a) && b.services == a.services && b.rules == a.rules
    requires forall s: nat, g: nat | (s, g) in a.rules && g in a.groups :: g in b.groups
    requires GroupNamesOk(a) ==> GroupNamesOk(b)
    ensures CatalogueStep(a, b)
  {
    forall s | s in b.services && b.services[s].enabled ensures HasRule(b, s) {
      assert HasRule(a, s);
    }
  }

  /** One service row is written; `rules` holds its new rows and everybody else's old ones. */
  lemma ServiceWritten(a: Db, b: Db, id: nat)
    requires Inv(a) && b.groups == a.groups && id in b.services
    requires b.services == a.services[id := b.services[id]]
    requires forall s: nat, g: nat | s != id :: (s, g) in b.rules <==> (s, g) in a.rules
    requires forall g: nat | (id, g) in b.rules && (id, g) !in a.rules :: g in a.groups
    requires b.services[id].enabled ==> HasRule(b, id)
    requires b.services[id].policy.websocket ==> b.services[id].policy.proxy
    requires forall s | s in a.services && s != id :: a.services[s].slug != b.services[id].slug
    ensures CatalogueStep(a, b)
  {
    forall s | s in b.services && b.services[s].enabled ensures HasRule(b, s) {
      if s != id {
        var g: nat :| (s, g) in a.rules;
        assert (s, g) in b.rules;
      }
    }
  }

  lemma VerdictWritten(a: Db, b: Db, id: nat, verdict: Verdict, policy: Policy)
    requires Inv(a) && id in a.services && b.groups == a.groups && b.rules == a.rules
    requires b.services == a.services[id := a.services[id].(verdict := verdict, verdictFor := policy)]
    ensures CatalogueStep(a, b)
  {
    forall s | s in b.services && b.services[s].enabled ensures HasRule(b, s) {
      assert HasRule(a, s);
    }
  }
}

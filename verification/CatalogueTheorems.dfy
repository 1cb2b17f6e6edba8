/** The service catalogue over whole runs, and how compatibility verdicts can go stale. */
module CatalogueTheorems {
  import opened Text
  import opened Records
  import opened StoreInvariant
  import opened StoreSteps
  import opened PortalMachine
  import opened PortalSafety
  import opened PortalTheorems
  import opened CallFrames
  import ServiceCatalog

  /** In every reachable store slugs are distinct, enabled services have a rule to an existing
      group, and WebSockets imply proxying. */
  lemma CatalogueAlwaysSound(start: World, ops: seq<Op>)
    requires Initial(start)
    ensures
      var db := Run(start, ops).db;
      && (forall s, t | s in db.services && t in db.services && db.services[s].slug == db.services[t].slug :: s == t)
      && (forall s | s in db.services && db.services[s].enabled ::
            exists g: nat :: (s, g) in db.rules && g in db.groups)
      && (forall s | s in db.services && db.services[s].policy.websocket :: db.services[s].policy.proxy)
  {
    hide WorkersSound, WinsSound, Run;
    ReachableIsSafe(start, ops);
    var db := Run(start, ops).db;
    forall s | s in db.services && db.services[s].enabled
      ensures exists g: nat :: (s, g) in db.rules && g in db.groups
    {
      assert HasRule(db, s);
      var g: nat :| (s, g) in db.rules;
      assert g in db.groups;
    }
  }

  // ---- saving ----

  /** The form lists this group name. */
  ghost predicate Listed(form: ServiceCatalog.Form, name: string) {
    name != "" && exists i :: 0 <= i < |form.groupNames| && Strip(form.groupNames[i]) == name
  }

  /** The group is active and the form lists it. */
  ghost predicate Chosen(db: Db, form: ServiceCatalog.Form, group: nat) {
    group in db.groups && db.groups[group].active && Listed(form, db.groups[group].name)
  }

  lemma NamesAreListed(form: ServiceCatalog.Form, name: string)
    ensures name in form.Names() <==> Listed(form, name)
  {
    hide Strip;
    if Listed(form, name) {
      var i :| 0 <= i < |form.groupNames| && Strip(form.groupNames[i]) == name;
      assert form.groupNames[i] in form.groupNames;
    }
  }

  lemma ChosenIsNamed(db: Db, form: ServiceCatalog.Form, group: nat)
    ensures group in ServiceCatalog.ActiveNamed(db, form.Names()) <==> Chosen(db, form, group)
  {
    hide Listed;
    if group in db.groups { NamesAreListed(form, db.groups[group].name); }
  }

  function NamesOf(db: Db, ids: set<nat>): set<string>
    requires ids <= db.groups.Keys
  {
    set id | id in ids :: db.groups[id].name
  }

  /** Group names are unique, so as many groups are found as names. */
  lemma {:induction false} NamesOfSize(db: Db, ids: set<nat>)
    requires GroupNamesOk(db) && ids <= db.groups.Keys
    ensures |NamesOf(db, ids)| == |ids|
    decreases ids
  {
    hide CaseFold;
    if ids == {} {
      assert NamesOf(db, ids) == {};
    } else {
      var id :| id in ids;
      NamesOfSize(db, ids - {id});
      assert NamesOf(db, ids) == NamesOf(db, ids - {id}) + {db.groups[id].name};
      forall other | other in ids - {id} ensures db.groups[other].name != db.groups[id].name {
        assert db.groups[other].normalizedName != db.groups[id].normalizedName;
      }
    }
  }

  lemma {:induction false} SameSize(a: set<string>, b: set<string>)
    requires a <= b
    ensures |a| <= |b| && (|a| == |b| ==> a == b)
    decreases a
  {
    if a == {} {
    } else {
      var x :| x in a;
      SameSize(a - {x}, b - {x});
    }
  }

  /** Comparing the two counts finds out exactly whether every listed name is an active group's. */
  lemma CountsAgreeIff(db: Db, form: ServiceCatalog.Form)
    requires GroupNamesOk(db)
    ensures |ServiceCatalog.ActiveNamed(db, form.Names())| == |form.Names()| <==>
      forall name | Listed(form, name) :: exists g :: g in db.groups && db.groups[g].active && db.groups[g].name == name
  {
    hide Listed, GroupNamesOk, CaseFold, Strip;
    var names := form.Names();
    var ids := ServiceCatalog.ActiveNamed(db, names);
    NamesOfSize(db, ids);
    SameSize(NamesOf(db, ids), names);
    forall name ensures name in names <==> Listed(form, name) { NamesAreListed(form, name); }
    if forall name | Listed(form, name) :: exists g :: g in db.groups && db.groups[g].active && db.groups[g].name == name {
      forall name | name in names ensures name in NamesOf(db, ids) {
        var g :| g in db.groups && db.groups[g].active && db.groups[g].name == name;
        assert g in ids;
      }
      assert NamesOf(db, ids) == names;
    }
    if |ids| == |names| {
      forall name | Listed(form, name) ensures exists g :: g in db.groups && db.groups[g].active && db.groups[g].name == name {
        assert name in NamesOf(db, ids);
      }
    }
  }

  /** In a reachable store a form is saved exactly when its fields are acceptable, every group it
      lists is an active one, an enabled service lists one, and no other service has the slug. */
  lemma SaveSucceedsIff(start: World, ops: seq<Op>, original: Option<string>, form: ServiceCatalog.Form, hint: nat)
    requires Initial(start)
    ensures
      var db := Run(start, ops).db;
      var slug := Strip(form.slug);
      ServiceCatalog.SaveService(db, original, form, hint).outcome == Success <==>
        && IsSlug(slug) && Strip(form.displayName) != "" && (form.status == "enabled" || form.status == "disabled")
        && (form.websocket ==> form.proxy) && form.trusted
        && (form.status == "enabled" ==> exists name :: Listed(form, name))
        && (forall name | Listed(form, name) ::
              exists g :: g in db.groups && db.groups[g].active && db.groups[g].name == name)
        && (original == Some(slug) || forall s | s in db.services :: db.services[s].slug != slug)
  {
    hide WorkersSound, WinsSound, Run, Strip, Listed, GroupNamesOk;
    ReachableIsSafe(start, ops);
    var db := Run(start, ops).db;
    CountsAgreeIff(db, form);
    SomethingListed(form);
    SlugTakenIff(db, Strip(form.slug));
  }

  lemma SomethingListed(form: ServiceCatalog.Form)
    ensures form.Names() == {} <==> !exists name :: Listed(form, name)
  {
    hide Listed, Strip;
    forall name ensures name in form.Names() <==> Listed(form, name) { NamesAreListed(form, name); }
    if name :| name in form.Names() { assert Listed(form, name); }
  }

  lemma SlugTakenIff(db: Db, slug: string)
    ensures ServiceCatalog.SlugOwner(db, slug).Some? <==> exists s :: s in db.services && db.services[s].slug == slug
  {
    var owner := ServiceCatalog.SlugOwner(db, slug);
    if owner.Some? { assert ServiceCatalog.HasSlug(db, owner.value, slug); }
  }

  /** The service a save wrote: the one that then has the submitted slug. */
  ghost predicate Saved(after: Db, form: ServiceCatalog.Form, service: nat) {
    service in after.services && after.services[service].slug == Strip(form.slug)
  }

  lemma SavedIsWritten(db: Db, original: Option<string>, form: ServiceCatalog.Form, hint: nat, service: nat)
    requires Inv(db) && ServiceCatalog.SaveService(db, original, form, hint).outcome == Success
    requires Saved(ServiceCatalog.SaveService(db, original, form, hint).db, form, service)
    ensures
      var after := ServiceCatalog.SaveService(db, original, form, hint).db;
      var edited := ServiceCatalog.Edited(db, original);
      && service == (if edited.Some? then edited.value else FirstFree(db.services.Keys, hint))
      && after.services == db.services[service := after.services[service]]
      && after.rules == ServiceCatalog.RulesWithout(db.rules, service)
           + MembershipRows(service, ServiceCatalog.ActiveNamed(db, form.Names()))
  {
    hide Inv, GoodStep, Strip, IsSlug, FirstFree, ServiceCatalog.RulesWithout, MembershipRows, ServiceCatalog.ActiveNamed;
    SaveServiceKeeps(db, original, form, hint);
    var after := ServiceCatalog.SaveService(db, original, form, hint).db;
    GoodStepKeepsInv(db, after);
    SlugsDiffer(after);
  }

  /** A save writes the form's fields to the service it was opened for, or to a new one when there is
      none, and leaves every other service alone. */
  lemma SaveStoresForm(db: Db, original: Option<string>, form: ServiceCatalog.Form, hint: nat, service: nat)
    requires Inv(db) && ServiceCatalog.SaveService(db, original, form, hint).outcome == Success
    requires Saved(ServiceCatalog.SaveService(db, original, form, hint).db, form, service)
    ensures
      var after := ServiceCatalog.SaveService(db, original, form, hint).db;
      var row := after.services[service];
      && after.services == db.services[service := row]
      && (if exists s :: s in db.services && original.Some? && original.value != "" && db.services[s].slug == original.value
          then service in db.services && db.services[service].slug == original.value
          else service !in db.services)
      && row.displayName == Strip(form.displayName) && row.enabled == (form.status == "enabled")
      && row.description == (if Strip(form.description) == "" then None else Some(Strip(form.description)))
      && row.policy == Policy(Strip(form.destination), form.proxy, form.websocket)
  {
    hide Inv, Strip, IsSlug, ServiceCatalog.RulesWithout, MembershipRows, ServiceCatalog.ActiveNamed, ServiceCatalog.SaveProblem;
    SavedIsWritten(db, original, form, hint, service);
    SavedRow(db, original, form, hint, service);
    if original.Some? && original.value != "" {
      SlugTakenIff(db, original.value);
      var owner := ServiceCatalog.SlugOwner(db, original.value);
      if owner.Some? { assert ServiceCatalog.HasSlug(db, owner.value, original.value); }
    }
  }

  lemma SavedRow(db: Db, original: Option<string>, form: ServiceCatalog.Form, hint: nat, service: nat)
    requires ServiceCatalog.SaveService(db, original, form, hint).outcome == Success
    requires
      var edited := ServiceCatalog.Edited(db, original);
      service == if edited.Some? then edited.value else FirstFree(db.services.Keys, hint)
    ensures
      var after := ServiceCatalog.SaveService(db, original, form, hint).db;
      && service in after.services
      && var row := after.services[service];
      && row.displayName == Strip(form.displayName) && row.enabled == (form.status == "enabled")
      && row.description == (if Strip(form.description) == "" then None else Some(Strip(form.description)))
      && row.policy == Policy(Strip(form.destination), form.proxy, form.websocket)
  {
    hide Strip, IsSlug, FirstFree, ServiceCatalog.Edited, ServiceCatalog.RulesWithout, MembershipRows, ServiceCatalog.ActiveNamed;
  }

  /** A save replaces the access rules: the service has a rule for exactly the active groups the form
      lists, so exactly their active members may enter it, if it is enabled; rules of and access to
      every other service stay. */
  lemma SaveReplacesRules(
    start: World, ops: seq<Op>, original: Option<string>, form: ServiceCatalog.Form, hint: nat, service: nat, user: nat)
    requires Initial(start)
    requires
      var txn := ServiceCatalog.SaveService(Run(start, ops).db, original, form, hint);
      txn.outcome == Success && Saved(txn.db, form, service)
    ensures
      var db := Run(start, ops).db;
      var after := ServiceCatalog.SaveService(db, original, form, hint).db;
      && (forall s: nat, g: nat :: (s, g) in after.rules <==>
            if s == service then Chosen(db, form, g) else (s, g) in db.rules)
      && (MayEnter(after, user, service) <==>
            && user in db.users && db.users[user].status == Active && form.status == "enabled"
            && exists g: nat :: Chosen(db, form, g) && (user, g) in db.memberships)
      && (forall other: nat | other != service :: MayEnter(after, user, other) <==> MayEnter(db, user, other))
  {
    hide Safe, Inv, Run, Strip, Chosen, MayEnter, Saved, ServiceCatalog.SaveService;
    ReachableIsSafe(start, ops);
    SafeStore(Run(start, ops));
    var db := Run(start, ops).db;
    var after := ServiceCatalog.SaveService(db, original, form, hint).db;
    SavedIsWritten(db, original, form, hint, service);
    SaveStoresForm(db, original, form, hint, service);
    RulesReplaced(db, after, form, service);
    EntryBySaved(db, after, form, service, user);
    forall other: nat | other != service ensures MayEnter(after, user, other) <==> MayEnter(db, user, other) {
      OtherEntry(db, after, service, user, other);
    }
  }

  lemma RulesReplaced(db: Db, after: Db, form: ServiceCatalog.Form, service: nat)
    requires after.rules == ServiceCatalog.RulesWithout(db.rules, service)
               + MembershipRows(service, ServiceCatalog.ActiveNamed(db, form.Names()))
    ensures forall s: nat, g: nat :: (s, g) in after.rules <==>
      if s == service then Chosen(db, form, g) else (s, g) in db.rules
  {
    hide Chosen, ServiceCatalog.ActiveNamed;
    forall g: nat ensures g in ServiceCatalog.ActiveNamed(db, form.Names()) <==> Chosen(db, form, g) {
      ChosenIsNamed(db, form, g);
    }
  }

  lemma EntryBySaved(db: Db, after: Db, form: ServiceCatalog.Form, service: nat, user: nat)
    requires after == db.(services := after.services, rules := after.rules) && service in after.services
    requires after.services[service].enabled == (form.status == "enabled")
    requires forall g: nat :: (service, g) in after.rules <==> Chosen(db, form, g)
    ensures MayEnter(after, user, service) <==>
      && user in db.users && db.users[user].status == Active && form.status == "enabled"
      && exists g: nat :: Chosen(db, form, g) && (user, g) in db.memberships
  {
    hide Listed;
    if g: nat :| Chosen(db, form, g) && (user, g) in db.memberships {
      assert Grants(after, g, user, service);
    }
    if g: nat :| Grants(after, g, user, service) {
      assert Chosen(db, form, g);
    }
  }

  lemma OtherEntry(db: Db, after: Db, service: nat, user: nat, other: nat)
    requires after == db.(services := after.services, rules := after.rules) && other != service
    requires service in after.services && after.services == db.services[service := after.services[service]]
    requires forall g: nat :: (other, g) in after.rules <==> (other, g) in db.rules
    ensures MayEnter(after, user, other) <==> MayEnter(db, user, other)
  {
    assert forall g: nat :: Grants(after, g, user, other) <==> Grants(db, g, user, other);
  }

  // ---- verdicts ----

  /** Every verdict was computed for the destination and flags the service has now, and so never
      calls a service with WebSockets plainly compatible. */
  ghost predicate VerdictsCurrent(db: Db) {
    forall s | s in db.services && db.services[s].verdict != Unchecked ::
      && db.services[s].verdictFor == db.services[s].policy
      && (db.services[s].policy.websocket ==> db.services[s].verdict != Compatible)
  }

  /** What each observation comes to: failed when the service could not be asked or answered with an
      error, compatible when nothing was found and WebSockets are off, limited otherwise. */
  lemma VerdictIff(policy: Policy, seen: ServiceCatalog.Observation)
    ensures
      var verdict := ServiceCatalog.VerdictOf(policy, seen);
      && verdict != Unchecked
      && (verdict == Failed <==> !seen.reached || seen.serverError)
      && (verdict == Compatible <==>
            seen.reached && !(seen.serverError || seen.absoluteReference || seen.unsafeRedirect || policy.websocket))
  {}

  /** The step writes a verdict, one that differs from the status it loaded, for a policy that was
      replaced during the network round trip. */
  ghost predicate WritesStaleVerdict(w: World, op: Op) {
    && op.WriteVerdict? && op.worker in w.checks
    && w.checks[op.worker].service in w.db.services
    && w.db.services[w.checks[op.worker].service].policy != w.checks[op.worker].policy
    && ServiceCatalog.VerdictOf(w.checks[op.worker].policy, op.seen) != w.checks[op.worker].loaded
  }

  /** A successful save writes one service. Any service has a verdict afterwards if and only if it
      had that verdict before and kept its destination and flags. */
  lemma VerdictSurvivesIff(
    db: Db, original: Option<string>, form: ServiceCatalog.Form, hint: nat, service: nat, verdict: Verdict)
    requires ServiceCatalog.SaveService(db, original, form, hint).outcome == Success && verdict != Unchecked
    ensures
      var after := ServiceCatalog.SaveService(db, original, form, hint).db.services;
      && (exists id :: id in after && after == db.services[id := after[id]])
      && (service in after && after[service].verdict == verdict <==>
            service in after && service in db.services
            && after[service].policy == db.services[service].policy && db.services[service].verdict == verdict)
  {
    hide Strip, IsSlug, FirstFree;
    var after := ServiceCatalog.SaveService(db, original, form, hint).db.services;
    var edited := ServiceCatalog.Edited(db, original);
    var id := if edited.Some? then edited.value else FirstFree(db.services.Keys, hint);
    assert id in after && after == db.services[id := after[id]];
  }

  lemma SavingKeepsVerdicts(db: Db, original: Option<string>, form: ServiceCatalog.Form, hint: nat)
    requires VerdictsCurrent(db)
    ensures VerdictsCurrent(ServiceCatalog.SaveService(db, original, form, hint).db)
  {
    hide Strip, IsSlug;
  }

  lemma SavingIsTheAnswer(db: Db, cookies: set<Cookie>, call: Call)
    requires call.SaveService?
    ensures Answer(db, cookies, call) == ServiceCatalog.SaveService(db, call.original, call.form, call.hint)
  {
    hide ServiceCatalog.SaveService;
  }

  lemma SameVerdicts(a: Db, b: Db)
    requires VerdictsCurrent(a) && b.services == a.services
    ensures VerdictsCurrent(b)
  {}

  lemma CallKeepsVerdicts(db: Db, cookies: set<Cookie>, call: Call)
    requires VerdictsCurrent(db)
    ensures VerdictsCurrent(Answer(db, cookies, call).db)
  {
    hide VerdictsCurrent, ServiceCatalog.SaveService, Answer;
    match call
    case SaveService(original, form, hint) =>
      SavingKeepsVerdicts(db, original, form, hint);
      SavingIsTheAnswer(db, cookies, call);
    case _ =>
      OnlySavingWritesServices(db, cookies, call);
      SameVerdicts(db, Answer(db, cookies, call).db);
  }

  /** One step leaves a stale verdict behind exactly when it writes one. */
  lemma VerdictsStep(w: World, op: Op)
    requires VerdictsCurrent(w.db)
    ensures VerdictsCurrent(Step(w, op).db) <==> !WritesStaleVerdict(w, op)
  {
    hide Answer;
    match op
    case Do(call) => CallKeepsVerdicts(w.db, w.cookies, call);
    case WriteVerdict(worker, seen) =>
      if WritesStaleVerdict(w, op) {
        assert w.checks[worker].service in Step(w, op).db.services;
      }
    case _ =>
  }

  ghost predicate AlwaysCurrent(w: World, ops: seq<Op>)
    decreases |ops|
  {
    VerdictsCurrent(w.db) && (ops != [] ==> AlwaysCurrent(Step(w, ops[0]), ops[1..]))
  }

  ghost predicate NeverWritesStale(w: World, ops: seq<Op>)
    decreases |ops|
  {
    ops != [] ==> !WritesStaleVerdict(w, ops[0]) && NeverWritesStale(Step(w, ops[0]), ops[1..])
  }

  /** Throughout a run every verdict is current if and only if no check of the run writes a verdict
      that differs from the status it loaded after the service it looked at was given another
      destination or other flags. */
  lemma {:induction false} VerdictsCurrentIff(w: World, ops: seq<Op>)
    requires VerdictsCurrent(w.db)
    ensures AlwaysCurrent(w, ops) <==> NeverWritesStale(w, ops)
    decreases |ops|
  {
    hide VerdictsCurrent, WritesStaleVerdict, Step;
    if ops != [] {
      VerdictsStep(w, ops[0]);
      if VerdictsCurrent(Step(w, ops[0]).db) {
        VerdictsCurrentIff(Step(w, ops[0]), ops[1..]);
      }
    }
  }

  /** Create a service, start a check, save the service with WebSockets, let the check finish. */
  function SavedInTheGap(first: ServiceCatalog.Form, second: ServiceCatalog.Form, seen: ServiceCatalog.Observation): seq<Op> {
    [Do(SaveService(None, first, 1)), ReadForCheck(0, Strip(first.slug)),
     Do(SaveService(Some(Strip(first.slug)), second, 1)), WriteVerdict(0, seen)]
  }

  predicate Saveable(form: ServiceCatalog.Form) {
    && IsSlug(Strip(form.slug)) && Strip(form.displayName) != "" && form.trusted
    && form.status == "disabled" && form.groupNames == [] && (form.websocket ==> form.proxy)
  }

  /** A save that switches WebSockets on while a check waits for the upstream: the check then
      declares the service compatible, which it never does for a service with WebSockets. */
  lemma StaleVerdict(
    start: World, first: ServiceCatalog.Form, second: ServiceCatalog.Form, seen: ServiceCatalog.Observation)
    requires Initial(start) && Saveable(first) && Saveable(second) && Strip(first.slug) == Strip(second.slug)
    requires !first.websocket && second.websocket
    requires seen == ServiceCatalog.Observation(true, false, false, false)
    ensures
      var db := Run(start, SavedInTheGap(first, second, seen)).db;
      && 1 in db.services && db.services[1].verdict == Compatible && db.services[1].policy.websocket
      && !VerdictsCurrent(db)
  {
    hide Strip, IsSlug, Answer;
    var ops := SavedInTheGap(first, second, seen);
    var w1 := Step(start, ops[0]);
    Creating(start, first);
    var w2 := Step(w1, ops[1]);
    assert ServiceCatalog.HasSlug(w1.db, 1, Strip(first.slug));
    var w3 := Step(w2, ops[2]);
    Resaving(w2, second);
    var w4 := Step(w3, ops[3]);
    assert Run(w3, ops[3..]) == Run(w4, []);
    assert Run(w2, ops[2..]) == Run(w3, ops[3..]);
    assert Run(w1, ops[1..]) == Run(w2, ops[2..]);
  }

  lemma Creating(w: World, form: ServiceCatalog.Form)
    requires w.db.services == map[] && Saveable(form)
    ensures
      var v := Step(w, Do(SaveService(None, form, 1)));
      && v.checks == w.checks && v.db.services.Keys == {1}
      && v.db.services[1].slug == Strip(form.slug) && v.db.services[1].policy == form.RequestedPolicy()
      && v.db.services[1].verdict == Unchecked
  {
    hide Strip, IsSlug;
    NothingNamed(w.db, form);
    assert ServiceCatalog.SlugOwner(w.db, Strip(form.slug)).None?;
  }

  lemma Resaving(w: World, form: ServiceCatalog.Form)
    requires w.db.services.Keys == {1} && Saveable(form) && w.db.services[1].slug == Strip(form.slug)
    ensures
      var v := Step(w, Do(SaveService(Some(Strip(form.slug)), form, 1)));
      && v.checks == w.checks && v.db.services.Keys == {1} && v.db.services[1].policy == form.RequestedPolicy()
  {
    hide Strip;
    NothingNamed(w.db, form);
    assert ServiceCatalog.HasSlug(w.db, 1, Strip(form.slug));
  }

  lemma NothingNamed(db: Db, form: ServiceCatalog.Form)
    requires form.groupNames == []
    ensures form.Names() == {} && ServiceCatalog.ActiveNamed(db, form.Names()) == {}
  {}

  /** What a finished check leaves of the services: one status, if it differs from the one loaded. */
  lemma VerdictIsAllThatMoves(db: Db, check: ServiceCatalog.Check, seen: ServiceCatalog.Observation, service: nat)
    requires service in db.services
    ensures
      var after := ServiceCatalog.WriteVerdict(db, check, seen);
      var verdict := ServiceCatalog.VerdictOf(check.policy, seen);
      && after.services.Keys == db.services.Keys
      && after.services[service] == db.services[service].(
           verdict := after.services[service].verdict, verdictFor := after.services[service].verdictFor)
      && after.services[service].verdict ==
           if service == check.service && verdict != check.loaded then verdict else db.services[service].verdict
  {
    hide ServiceCatalog.VerdictOf;
  }
}

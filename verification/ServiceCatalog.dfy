/** `service_admin_service` and `service_compatibility_service`. */
module ServiceCatalog {
  import opened Text
  import opened Records

  /** A submitted service form. `trusted` is the answer of the destination check. */
  datatype Form = Form(
    slug: string,
    displayName: string,
    description: string,
    destination: string,
    trusted: bool,
    status: string,
    groupNames: seq<string>,
    proxy: bool,
    websocket: bool)
  {
    function RequestedPolicy(): Policy {
      Policy(Strip(destination), proxy, websocket)
    }

    function Names(): set<string> {
      set name | name in groupNames && Strip(name) != "" :: Strip(name)
    }
  }

  function ActiveNamed(db: Db, names: set<string>): (ids: set<nat>)
    ensures forall id :: id in ids <==> id in db.groups && db.groups[id].active && db.groups[id].name in names
  {
    set id | id in db.groups && db.groups[id].active && db.groups[id].name in names
  }

  ghost predicate HasSlug(db: Db, id: nat, slug: string) {
    id in db.services && db.services[id].slug == slug
  }

  /** `select(ServiceEntry).where(ServiceEntry.slug == slug)` */
  ghost function SlugOwner(db: Db, slug: string): (owner: Option<nat>)
    ensures owner.Some? ==> HasSlug(db, owner.value, slug)
    ensures owner.None? ==> forall id | id in db.services :: db.services[id].slug != slug
  {
    if id :| HasSlug(db, id, slug) then
      Some(id)
    else
      assert forall id | id in db.services :: !HasSlug(db, id, slug);
      None
  }

  function FormProblem(db: Db, form: Form): Option<Outcome> {
    if !IsSlug(Strip(form.slug)) then Some(InvalidInput("slug"))
    else if Strip(form.displayName) == "" then Some(InvalidInput("display_name"))
    else if form.status !in {"enabled", "disabled"} then Some(InvalidInput("status"))
    else if form.websocket && !form.proxy then Some(InvalidInput("websocket_enabled"))
    else if !form.trusted then Some(InvalidInput("destination"))
    else if form.status == "enabled" && form.Names() == {} then Some(InvalidInput("group_names"))
    else if |ActiveNamed(db, form.Names())| != |form.Names()| then Some(InvalidInput("group_names"))
    else None
  }

  function RulesWithout(rules: set<(nat, nat)>, service: nat): (rows: set<(nat, nat)>)
    ensures forall s, g :: (s, g) in rows <==> s != service && (s, g) in rules
  {
    set row | row in rules && row.0 != service
  }

  /** The row that is changed, and whether it exists already. A name that no longer resolves
      falls back to creation. */
  ghost function Edited(db: Db, original: Option<string>): (edited: Option<nat>)
    ensures edited.Some? ==> edited.value in db.services
  {
    if original.None? || original.value == "" then None else SlugOwner(db, original.value)
  }

  /** The row after the assignments of `save_service`: a verdict survives only if the policy it
      was reached for is kept. */
  function Written(was: Option<Service>, form: Form): Service {
    var policy := form.RequestedPolicy();
    var keeps := was.Some? && was.value.policy == policy;
    Service(Strip(form.slug), Strip(form.displayName),
      if Strip(form.description) == "" then None else Some(Strip(form.description)),
      form.status == "enabled", policy,
      if keeps then was.value.verdict else Unchecked,
      if keeps then was.value.verdictFor else policy)
  }

  /** The checks of `save_service`, the uniqueness of the slug last. */
  ghost function SaveProblem(db: Db, original: Option<string>, form: Form): Option<Outcome> {
    var slug := Strip(form.slug);
    if FormProblem(db, form).Some? then FormProblem(db, form)
    else if (Edited(db, original).None? || slug != original.value) && SlugOwner(db, slug).Some?
    then Some(InvalidInput("slug"))
    else None
  }

  ghost function SaveService(db: Db, original: Option<string>, form: Form, hint: nat): (txn: Txn)
    ensures txn.db == db.(services := txn.db.services, rules := txn.db.rules)
  {
    var problem := SaveProblem(db, original, form);
    if problem.Some? then Txn(problem.value, db)
    else
      var edited := Edited(db, original);
      var id := if edited.Some? then edited.value else FirstFree(db.services.Keys, hint);
      var was := if edited.Some? then Some(db.services[id]) else None;
      Txn(Success, db.(
        services := db.services[id := Written(was, form)],
        rules := RulesWithout(db.rules, id) + MembershipRows(id, ActiveNamed(db, form.Names()))))
  }

  // ---- check_service_compatibility, split at its network round trip ----

  /** What the probe saw. `reached` is false when resolving or fetching failed. */
  datatype Observation = Observation(reached: bool, serverError: bool, absoluteReference: bool, unsafeRedirect: bool)

  function VerdictOf(policy: Policy, seen: Observation): Verdict {
    if !seen.reached || seen.serverError then Failed
    else if seen.absoluteReference || seen.unsafeRedirect || policy.websocket then Limited
    else Compatible
  }

  /** What the check holds while it waits for the upstream answer. `loaded` is the status the row
      had when it was read. */
  datatype Check = Check(service: nat, policy: Policy, loaded: Verdict)

  ghost function ReadForCheck(db: Db, slug: string): (check: Option<Check>)
    ensures check.Some? ==> check.value.service in db.services
  {
    var owner := SlugOwner(db, slug);
    if owner.Some? then Some(Check(owner.value, db.services[owner.value].policy, db.services[owner.value].verdict)) else None
  }

  /** The object mapper writes the status only if it is not the one it loaded. */
  ghost function WriteVerdict(db: Db, check: Check, seen: Observation): (after: Db)
    ensures after == db.(services := after.services)
  {
    var verdict := VerdictOf(check.policy, seen);
    if check.service in db.services && verdict != check.loaded then
      db.(services := db.services[check.service :=
        db.services[check.service].(verdict := verdict, verdictFor := check.policy)])
    else db
  }
}

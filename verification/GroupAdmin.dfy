/** `group_admin_service`: what each call answers and commits. */
module GroupAdmin {
  import opened Text
  import opened Records

  const MAX_NAME := 100
  const MAX_DESCRIPTION := 500

  function Canonical(name: string): string {
    Collapse(Strip(name))
  }

  predicate NameProblem(name: string) {
    Canonical(name) == "" || |Canonical(name)| > MAX_NAME
  }

  predicate NameTaken(db: Db, normalized: string, except: Option<nat>) {
    exists id | id in db.groups && Some(id) != except :: db.groups[id].normalizedName == normalized
  }

  function CleanDescription(description: string): Option<string> {
    var text := Strip(description);
    var cut := if |text| > MAX_DESCRIPTION then text[..MAX_DESCRIPTION] else text;
    if cut == "" then None else Some(cut)
  }

  function GroupProblem(db: Db, actor: nat, group: nat, expected: nat): Option<Outcome> {
    if !IsAdmin(db, actor) then Some(Denied)
    else if group !in db.groups then Some(NotFound)
    else if db.groups[group].revision != expected then Some(Conflict)
    else None
  }

  /** `_protect_last_admin_group_change` lets the change through. */
  ghost predicate AdminOutside(db: Db, group: nat) {
    exists user: nat :: ActiveAdmin(db, user) && (user, group) !in db.memberships
  }

  ghost predicate HasDependencies(db: Db, group: nat) {
    || (exists user: nat :: (user, group) in db.memberships)
    || (exists service: nat :: (service, group) in db.rules)
  }

  ghost function CreateGroup(db: Db, actor: nat, name: string, description: string, apply: bool, hint: nat): (txn: Txn)
    ensures txn.db == db.(groups := txn.db.groups)
  {
    if !IsAdmin(db, actor) then Txn(Denied, db)
    else if NameProblem(name) then Txn(InvalidInput("name"), db)
    else if NameTaken(db, CaseFold(Canonical(name)), None) then Txn(InvalidInput("name"), db)
    else if !apply then Txn(Success, db)
    else
      var id := FirstFree(db.groups.Keys, hint);
      var row := Group(Canonical(name), CaseFold(Canonical(name)), CleanDescription(description), true, 1);
      Txn(Success, db.(groups := db.groups[id := row]))
  }

  ghost function UpdateGroup(
    db: Db, actor: nat, group: nat, expected: nat, name: string, description: string, apply: bool): (txn: Txn)
    ensures txn.db == db.(groups := txn.db.groups)
  {
    var problem := GroupProblem(db, actor, group, expected);
    if problem.Some? then Txn(problem.value, db)
    else if NameProblem(name) then Txn(InvalidInput("name"), db)
    else if NameTaken(db, CaseFold(Canonical(name)), Some(group)) then Txn(InvalidInput("name"), db)
    else
      var row := db.groups[group];
      var changed := row.(
        name := Canonical(name),
        normalizedName := CaseFold(Canonical(name)),
        description := CleanDescription(description));
      if changed.name == row.name && changed.description == row.description then Txn(NoChange, db)
      else if !apply then Txn(Success, db)
      else Txn(Success, db.(groups := db.groups[group := changed.(revision := row.revision + 1)]))
  }

  /** `deactivate_group` for `active == false`, `reactivate_group` for `active == true`. */
  ghost function SetGroupActive(db: Db, actor: nat, group: nat, expected: nat, active: bool, apply: bool): (txn: Txn)
    ensures txn.db == db.(groups := txn.db.groups)
  {
    var problem := GroupProblem(db, actor, group, expected);
    if problem.Some? then Txn(problem.value, db)
    else
      var row := db.groups[group];
      if row.active == active then Txn(NoChange, db)
      else if !active && !AdminOutside(db, group) then Txn(Denied, db)
      else if !apply then Txn(Success, db)
      else Txn(Success, db.(groups := db.groups[group := row.(active := active, revision := row.revision + 1)]))
  }

  ghost function RemoveGroup(db: Db, actor: nat, group: nat, expected: nat, apply: bool): (txn: Txn)
    ensures txn.db == db.(groups := txn.db.groups)
  {
    var problem := GroupProblem(db, actor, group, expected);
    if problem.Some? then Txn(problem.value, db)
    else if !AdminOutside(db, group) then Txn(Denied, db)
    else if HasDependencies(db, group) then Txn(Conflict, db)
    else if !apply then Txn(Success, db)
    else Txn(Success, db.(groups := db.groups - {group}))
  }
}

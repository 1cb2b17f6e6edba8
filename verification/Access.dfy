/** `access_service`: the relational meaning of access and of the explanation records. */
module Access {
  import opened Text
  import opened Records
  import Order

  datatype Denial = UserDisabled | ServiceDisabled | NoMatchingGroup

  datatype AccessRecord = AccessRecord(
    serviceId: nat,
    slug: string,
    displayName: string,
    enabled: bool,
    grantingGroups: seq<string>,
    policyGranted: bool,
    usable: bool,
    reason: Option<Denial>)

  ghost function GrantingNames(db: Db, user: nat, service: nat): set<string> {
    set group | group in db.groups && Grants(db, group, user, service) :: db.groups[group].name
  }

  /** The record `effective_access_for_user` is to produce for one service. */
  ghost function RecordOf(db: Db, user: nat, service: nat): AccessRecord
    requires user in db.users && service in db.services
  {
    var row := db.services[service];
    var names := Order.Sorted(GrantingNames(db, user, service));
    var active := db.users[user].status == Active;
    var usable := names != [] && active && row.enabled;
    AccessRecord(service, row.slug, row.displayName, row.enabled, names, names != [], usable,
      if usable then None
      else if !active then Some(UserDisabled)
      else if !row.enabled then Some(ServiceDisabled)
      else Some(NoMatchingGroup))
  }

  ghost function AccessOf(db: Db, user: nat): map<nat, AccessRecord>
    requires user in db.users
  {
    map service | service in db.services :: RecordOf(db, user, service)
  }

  /** A record is usable exactly when the user may enter. */
  lemma UsableIffMayEnter(db: Db, user: nat, service: nat)
    requires user in db.users && service in db.services
    ensures RecordOf(db, user, service).usable <==> MayEnter(db, user, service)
  {
    var granting := GrantingNames(db, user, service);
    var names := Order.Sorted(granting);
    if names != [] {
      assert names[0] in granting;
    }
    if group :| Grants(db, group, user, service) {
      assert db.groups[group].name in granting;
      assert db.groups[group].name in names;
    }
  }
}

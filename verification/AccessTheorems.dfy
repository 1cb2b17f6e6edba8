/** How access moves: group lifecycle, and the change report of a membership change. */
module AccessTheorems {
  import opened Text
  import opened Records
  import opened StoreInvariant
  import opened PortalMachine
  import opened PortalSafety
  import opened Access
  import UserAdmin
  import GroupAdmin
  import Order

  // ---- group lifecycle ----

  /** Deactivating a group takes away exactly the accesses no other group grants, and leaves an
      active administrator who is not in the group. */
  lemma DeactivationRemovesExactly(db: Db, actor: nat, group: nat, expected: nat)
    requires var txn := GroupAdmin.SetGroupActive(db, actor, group, expected, false, true); txn.outcome == Success
    ensures
      var after := GroupAdmin.SetGroupActive(db, actor, group, expected, false, true).db;
      && (forall user, service ::
            MayEnter(after, user, service) <==>
              MayEnter(db, user, service) && exists other :: other != group && Grants(db, other, user, service))
      && (exists admin: nat :: ActiveAdmin(after, admin) && (admin, group) !in after.memberships)
  {
    var after := GroupAdmin.SetGroupActive(db, actor, group, expected, false, true).db;
    forall user, service
      ensures MayEnter(after, user, service) <==>
        MayEnter(db, user, service) && exists other :: other != group && Grants(db, other, user, service)
    {
      GrantsElsewhere(db, after, group, user, service);
    }
    var admin: nat :| ActiveAdmin(db, admin) && (admin, group) !in db.memberships;
    assert ActiveAdmin(after, admin);
  }

  lemma GrantsElsewhere(db: Db, after: Db, group: nat, user: nat, service: nat)
    requires group in db.groups && group in after.groups && !after.groups[group].active
    requires after.groups == db.groups[group := after.groups[group]]
    requires after.rules == db.rules && after.memberships == db.memberships
    ensures forall g :: Grants(after, g, user, service) <==> g != group && Grants(db, g, user, service)
  {}

  /** Reactivating straight after restores every pair. */
  lemma ReactivationRestores(db: Db, actor: nat, group: nat, expected: nat)
    requires GroupAdmin.SetGroupActive(db, actor, group, expected, false, true).outcome == Success
    ensures
      var off := GroupAdmin.SetGroupActive(db, actor, group, expected, false, true).db;
      var txn := GroupAdmin.SetGroupActive(off, actor, group, expected + 1, true, true);
      && txn.outcome == Success && group in db.groups
      && txn.db == db.(groups := db.groups[group := db.groups[group].(revision := expected + 2)])
      && forall user, service :: MayEnter(txn.db, user, service) <==> MayEnter(db, user, service)
  {
    var off := GroupAdmin.SetGroupActive(db, actor, group, expected, false, true).db;
    var txn := GroupAdmin.SetGroupActive(off, actor, group, expected + 1, true, true);
    assert txn.db.groups == db.groups[group := db.groups[group].(revision := expected + 2)];
    forall user, service ensures MayEnter(txn.db, user, service) <==> MayEnter(db, user, service) {
      assert forall g :: Grants(txn.db, g, user, service) <==> Grants(db, g, user, service);
    }
  }

  /** A group can only be removed when that changes nobody's access. */
  lemma RemovalChangesNoAccess(db: Db, actor: nat, group: nat, expected: nat, user: nat, service: nat)
    ensures
      var txn := GroupAdmin.RemoveGroup(db, actor, group, expected, true);
      && (txn.outcome == Success ==> group !in txn.db.groups)
      && (MayEnter(txn.db, user, service) <==> MayEnter(db, user, service))
  {
    var txn := GroupAdmin.RemoveGroup(db, actor, group, expected, true);
    if txn.outcome == Success {
      assert forall g :: Grants(txn.db, g, user, service) <==> Grants(db, g, user, service);
    }
  }

  // ---- the report of a membership change ----

  /** `items` lists the records of `records`, one per service. */
  ghost predicate Listing(items: seq<AccessRecord>, records: map<nat, AccessRecord>) {
    && (forall i | 0 <= i < |items| :: items[i].serviceId in records && records[items[i].serviceId] == items[i])
    && (forall i, j | 0 <= i < j < |items| :: items[i].serviceId != items[j].serviceId)
    && (forall s | s in records :: exists i :: 0 <= i < |items| && items[i].serviceId == s)
  }

  /** Every service has exactly one record; it is usable exactly when `may_enter` holds, and it
      names the active granting groups in order, once each. */
  lemma RecordsAgreeWithEntry(db: Db, user: nat, records: seq<AccessRecord>, service: nat)
    requires user in db.users && service in db.services && Listing(records, AccessOf(db, user))
    ensures exists i :: (
      && 0 <= i < |records|
      && records[i].serviceId == service
      && (records[i].usable <==> MayEnter(db, user, service))
      && Order.Lists(records[i].grantingGroups, GrantingNames(db, user, service))
      && forall j | 0 <= j < |records| && records[j].serviceId == service :: j == i)
  {
    hide MayEnter, GrantingNames;
    UsableIffMayEnter(db, user, service);
    var all := AccessOf(db, user);
    assert service in all;
    var i :| 0 <= i < |records| && records[i].serviceId == service;
    assert records[i] == RecordOf(db, user, service);
  }

  /** `next((old for old in before if old["service_id"] == service), None)` */
  function Find(items: seq<AccessRecord>, service: nat): Option<AccessRecord> {
    if items == [] then None
    else if items[0].serviceId == service then Some(items[0])
    else Find(items[1..], service)
  }

  /** The comprehension that builds `effective_access_changes`. */
  function Changed(before: seq<AccessRecord>, after: seq<AccessRecord>): seq<AccessRecord> {
    if after == [] then []
    else
      (if Find(before, after[0].serviceId) != Some(after[0]) then [after[0]] else []) + Changed(before, after[1..])
  }

  function Overwrite(records: map<nat, AccessRecord>, items: seq<AccessRecord>): map<nat, AccessRecord>
    decreases |items|
  {
    if items == [] then records
    else Overwrite(records[items[0].serviceId := items[0]], items[1..])
  }

  lemma {:induction false} FindInListing(items: seq<AccessRecord>, service: nat)
    ensures Find(items, service).None? ==> forall item | item in items :: item.serviceId != service
    ensures Find(items, service).Some? ==> Find(items, service).value in items && Find(items, service).value.serviceId == service
    decreases |items|
  {
    if items != [] {
      FindInListing(items[1..], service);
    }
  }

  lemma {:induction false} ChangedHolds(before: seq<AccessRecord>, after: seq<AccessRecord>, item: AccessRecord)
    ensures item in Changed(before, after) <==> item in after && Find(before, item.serviceId) != Some(item)
    decreases |after|
  {
    if after != [] {
      ChangedHolds(before, after[1..], item);
      assert item in after <==> item == after[0] || item in after[1..];
    }
  }

  predicate Mentions(items: seq<AccessRecord>, service: nat) {
    exists item | item in items :: item.serviceId == service
  }

  /** Writing records of `all` over `records`, later ones last. */
  lemma {:induction false} OverwriteHolds(
    records: map<nat, AccessRecord>, items: seq<AccessRecord>, all: map<nat, AccessRecord>, service: nat)
    requires forall item | item in items :: item.serviceId in all && all[item.serviceId] == item
    ensures
      var r := Overwrite(records, items);
      && (service in r <==> service in records || Mentions(items, service))
      && (Mentions(items, service) ==> r[service] == all[service])
      && (service in records && !Mentions(items, service) ==> r[service] == records[service])
    decreases |items|
  {
    if items != [] {
      OverwriteHolds(records[items[0].serviceId := items[0]], items[1..], all, service);
      assert items == [items[0]] + items[1..];
      assert Mentions(items, service) <==> items[0].serviceId == service || Mentions(items[1..], service);
    }
  }

  /** A service is reported exactly when its record is new or differs. */
  lemma ReportedIffChanged(
    before: seq<AccessRecord>, was: map<nat, AccessRecord>, after: seq<AccessRecord>, becomes: map<nat, AccessRecord>,
    service: nat)
    requires Listing(before, was) && Listing(after, becomes)
    ensures Mentions(Changed(before, after), service) <==>
      service in becomes && (service !in was || was[service] != becomes[service])
    ensures service in becomes && Mentions(Changed(before, after), service) ==> becomes[service] in Changed(before, after)
  {
    var report := Changed(before, after);
    FindInListing(before, service);
    if service in was {
      var k :| 0 <= k < |before| && before[k].serviceId == service;
      assert before[k] in before;
    }
    if service in becomes {
      var i :| 0 <= i < |after| && after[i].serviceId == service;
      ChangedHolds(before, after, after[i]);
    }
    if Mentions(report, service) {
      var item :| item in report && item.serviceId == service;
      ChangedHolds(before, after, item);
    }
  }

  /** The report is an exact patch: written over the records before, it gives the records after. */
  lemma ReportIsExactPatch(
    before: seq<AccessRecord>, was: map<nat, AccessRecord>, after: seq<AccessRecord>, becomes: map<nat, AccessRecord>)
    requires Listing(before, was) && Listing(after, becomes) && was.Keys <= becomes.Keys
    ensures Overwrite(was, Changed(before, after)) == becomes
  {
    var report := Changed(before, after);
    forall item | item in report ensures item.serviceId in becomes && becomes[item.serviceId] == item {
      ChangedHolds(before, after, item);
    }
    var r := Overwrite(was, report);
    forall service
      ensures service in r <==> service in becomes
      ensures service in r ==> r[service] == becomes[service]
    {
      OverwriteHolds(was, report, becomes, service);
      ReportedIffChanged(before, was, after, becomes, service);
    }
  }

  /** In any run, also when other changes were committed in the gap of the membership change. */
  lemma ChangeReportIsExactPatch(
    start: World, ops: seq<Op>, worker: nat, before: seq<AccessRecord>, after: seq<AccessRecord>)
    requires Initial(start)
    requires var w := Run(start, ops);
      && worker in w.changes
      && UserAdmin.CommitMemberships(w.db, w.changes[worker]).outcome == Success
      && Listing(before, w.changes[worker].before)
      && Listing(after, AccessOf(UserAdmin.CommitMemberships(w.db, w.changes[worker]).db, w.changes[worker].target))
    ensures
      var change := Run(start, ops).changes[worker];
      Overwrite(change.before, Changed(before, after)) ==
        AccessOf(UserAdmin.CommitMemberships(Run(start, ops).db, change).db, change.target)
  {
    hide Inv, WinsSound, Run, Changed, Overwrite, RecordOf;
    var w := Run(start, ops);
    ReachableIsSafe(start, ops);
    var change := w.changes[worker];
    assert ChangeSound(w.db, change);
    ReportIsExactPatch(before, change.before, after,
      AccessOf(UserAdmin.CommitMemberships(w.db, change).db, change.target));
  }

  /** Nobody else's access moves. */
  lemma ChangeMovesNobodyElse(db: Db, change: UserAdmin.Change, other: nat, service: nat)
    requires other != change.target
    ensures
      var after := UserAdmin.CommitMemberships(db, change).db;
      && (MayEnter(after, other, service) <==> MayEnter(db, other, service))
      && (other in db.users && service in db.services ==>
            RecordOf(after, other, service) == RecordOf(db, other, service))
  {
    var after := UserAdmin.CommitMemberships(db, change).db;
    assert forall g :: Grants(after, g, other, service) <==> Grants(db, g, other, service);
    assert GrantingNames(after, other, service) == GrantingNames(db, other, service);
  }

  // ---- reasons ----

  /** A record repeats the service's columns and gives the first reason that keeps the user out: a
      disabled account before a disabled service before a missing group. */
  lemma ReasonIff(db: Db, user: nat, service: nat)
    requires user in db.users && service in db.services
    ensures
      var record := RecordOf(db, user, service);
      var row := db.services[service];
      var granted := exists g: nat :: Grants(db, g, user, service);
      && record.serviceId == service && record.slug == row.slug
      && record.displayName == row.displayName && record.enabled == row.enabled
      && (record.policyGranted <==> granted)
      && (record.reason.None? <==> MayEnter(db, user, service))
      && (record.reason == Some(UserDisabled) <==> db.users[user].status != Active)
      && (record.reason == Some(ServiceDisabled) <==> db.users[user].status == Active && !row.enabled)
      && (record.reason == Some(NoMatchingGroup) <==> db.users[user].status == Active && row.enabled && !granted)
  {
    var granting := GrantingNames(db, user, service);
    var names := Order.Sorted(granting);
    if names != [] { assert names[0] in granting; }
    if g: nat :| Grants(db, g, user, service) {
      assert db.groups[g].name in granting && db.groups[g].name in names;
    }
  }
}

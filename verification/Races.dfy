/** Runs, from any empty store, in which a split service call meets a change made in its gap. */
module Races {
  import opened Text
  import opened Records
  import opened PortalMachine
  import opened MembershipTheorems
  import UserAdmin
  import GroupAdmin
  import SignIn

  /** What the installer types in. */
  datatype Founder = Founder(email: string, displayName: string, password: string) {
    predicate Acceptable() {
      '@' in Strip(email) && Strip(displayName) != "" && |password| >= SignIn.MIN_PASSWORD
    }

    /** The founder becomes user 1. */
    function Bootstraps(): Op {
      Do(Bootstrap(email, displayName, password, 1, 0))
    }
  }

  /** A machine with an administrator whose id is 1 and nothing else. */
  ghost predicate Founded(w: World) {
    && w.db.users.Keys == {1} && IsAdmin(w.db, 1) && w.db.users[1].revision == 1
    && w.db.groups == map[] && w.db.memberships == {} && w.db.rules == {}
    && w.db.users[1].life < w.db.entropy
  }

  lemma Founding(start: World, founder: Founder)
    requires Initial(start) && founder.Acceptable()
    ensures Founded(Step(start, founder.Bootstraps()))
    ensures Step(start, founder.Bootstraps()).db.users[1].normalizedEmail == CaseFold(Strip(founder.email))
  {
    hide Strip, CaseFold;
  }

  function Names(name: string): Op {
    Do(CreateGroup(1, name, "", true, 1))
  }

  lemma Grouping(w: World, name: string)
    requires IsAdmin(w.db, 1) && w.db.groups == map[] && !GroupAdmin.NameProblem(name)
    ensures
      var v := Step(w, Names(name));
      && v == w.(db := w.db.(groups := v.db.groups))
      && v.db.groups.Keys == {1} && v.db.groups[1].name == GroupAdmin.Canonical(name) && v.db.groups[1].revision == 1
  {
    hide Strip, CaseFold, Collapse, GroupAdmin.CleanDescription;
    hide UserAdmin.CreateUser, UserAdmin.UpdateUser, UserAdmin.SetUserStatus, UserAdmin.DeleteUser;
    hide GroupAdmin.UpdateGroup, GroupAdmin.SetGroupActive, GroupAdmin.RemoveGroup, SignIn.Bootstrap;
  }

  /** Give user 1 the group 1, remove the group in the gap, commit. */
  function RemovedInTheGap(founder: Founder, name: string): seq<Op> {
    [founder.Bootstraps(), Names(name), ReadMemberships(0, 1, 1, {1}, 1, true),
     Do(RemoveGroup(1, 1, 1, true)), CommitMemberships(0)]
  }

  /** A group removed between the read and the compare-and-set of a membership change leaves its
      membership behind, and the next group that is given the id has a member nobody put there. */
  lemma RemovedGroupKeepsItsMember(start: World, founder: Founder, first: string, second: string)
    requires Initial(start) && founder.Acceptable()
    requires !GroupAdmin.NameProblem(first) && !GroupAdmin.NameProblem(second)
    ensures !GroupRefs(Run(start, RemovedInTheGap(founder, first)).db)
    ensures
      var db := Step(Run(start, RemovedInTheGap(founder, first)), Names(second)).db;
      1 in db.groups && db.groups[1].name == GroupAdmin.Canonical(second) && (1, 1) in db.memberships
  {
    hide Strip, CaseFold, GroupAdmin.NameProblem, GroupAdmin.Canonical, Answer;
    var ops := RemovedInTheGap(founder, first);
    var w1 := Step(start, ops[0]);
    Founding(start, founder);
    var w2 := Step(w1, ops[1]);
    Grouping(w1, first);
    var w3 := Step(w2, ops[2]);
    var w4 := Step(w3, ops[3]);
    Removing(w2, w3, w4);
    var w5 := Step(w4, ops[4]);
    assert (1, 1) in w5.db.memberships;
    RunOfFive(start, ops, w1, w2, w3, w4, w5);
    Grouping(w5, second);
  }

  lemma Removing(w2: World, w3: World, w4: World)
    requires w2.db.users.Keys == {1} && IsAdmin(w2.db, 1) && w2.db.users[1].revision == 1
    requires w2.db.groups.Keys == {1} && w2.db.groups[1].revision == 1
    requires w2.db.memberships == {} && w2.db.rules == {}
    requires w3 == Step(w2, ReadMemberships(0, 1, 1, {1}, 1, true)) && w4 == Step(w3, Do(RemoveGroup(1, 1, 1, true)))
    ensures w4.db == w2.db.(groups := map[])
    ensures 0 in w4.changes && w4.changes[0].target == 1 && w4.changes[0].desired == {1} && w4.changes[0].expected == 1
  {
    assert GroupsOf(w2.db.memberships, 1) == {};
    assert ActiveAdmin(w3.db, 1) && (1, 1) !in w3.db.memberships;
    assert w4.db.groups == map[];
  }

  lemma RunOfFive(w0: World, ops: seq<Op>, w1: World, w2: World, w3: World, w4: World, w5: World)
    requires |ops| == 5
    requires w1 == Step(w0, ops[0]) && w2 == Step(w1, ops[1]) && w3 == Step(w2, ops[2])
    requires w4 == Step(w3, ops[3]) && w5 == Step(w4, ops[4])
    ensures Run(w0, ops) == w5
  {
    hide Step;
    assert Run(w4, ops[4..]) == Run(w5, []);
    assert Run(w3, ops[3..]) == Run(w4, ops[4..]);
    assert Run(w2, ops[2..]) == Run(w3, ops[3..]);
    assert Run(w1, ops[1..]) == Run(w2, ops[2..]);
  }

  // ---- a change read from a user whose id is reused ----

  /** The account that is created, deleted and created again. */
  datatype Member = Member(email: string, displayName: string) {
    predicate Acceptable(founder: Founder) {
      && '@' in Strip(email) && Strip(displayName) != ""
      && CaseFold(Strip(email)) != CaseFold(Strip(founder.email))
    }

    function Joins(generated: string): Op {
      Do(CreateUser(1, email, displayName, "active", false, {}, true, generated, 2))
    }
  }

  ghost predicate Joined(w: World) {
    && w.db.users.Keys == {1, 2} && IsAdmin(w.db, 1)
    && w.db.users[2].revision == 1 && !w.db.users[2].isAdmin && w.db.users[2].life < w.db.entropy
    && w.db.groups.Keys == {1} && (forall g: nat :: (2, g) !in w.db.memberships)
  }

  lemma Joining(w: World, founder: Founder, member: Member, generated: string)
    requires w.db.users.Keys == {1} && IsAdmin(w.db, 1) && w.db.groups.Keys == {1} && w.db.memberships == {}
    requires member.Acceptable(founder) && w.db.users[1].normalizedEmail == CaseFold(Strip(founder.email))
    ensures
      var v := Step(w, member.Joins(generated));
      && Joined(v) && v.db.users[1] == w.db.users[1] && v.db.users[2].life == w.db.entropy
      && v.db.memberships == {} && v.changes == w.changes && v.db.groups == w.db.groups
  {
    hide Strip, CaseFold;
    assert MembershipRows(2, {}) == {};
  }

  lemma Leaving(w: World)
    requires Joined(w) && w.db.memberships == {}
    ensures
      var v := Step(w, Do(DeleteUser(1, 2, 1, true)));
      && v.db.users == map[1 := w.db.users[1]] && v.db.memberships == {} && v.db.groups == w.db.groups
      && v.changes == w.changes && v.db.entropy == w.db.entropy
  {
    assert ActiveAdmin(w.db, 1);
  }

  /** Put user 2 into group 1; in the gap user 2 is deleted and its id given to a new user. */
  function ReusedInTheGap(founder: Founder, group: string, member: Member, generated: string): seq<Op> {
    [founder.Bootstraps(), Names(group), member.Joins(generated), ReadMemberships(0, 1, 2, {1}, 1, true),
     Do(DeleteUser(1, 2, 1, true)), member.Joins(generated), CommitMemberships(0)]
  }

  /** What the pending change meets when it commits: the successor, at the revision it expects. */
  lemma SuccessorAwaits(start: World, founder: Founder, group: string, member: Member, generated: string)
    requires Initial(start) && founder.Acceptable() && member.Acceptable(founder) && !GroupAdmin.NameProblem(group)
    ensures
      var w := Run(start, ReusedInTheGap(founder, group, member, generated)[..6]);
      && 0 in w.changes && w.changes[0].target == 2 && w.changes[0].desired == {1} && w.changes[0].expected == 1
      && 2 in w.db.users && w.db.users[2].revision == 1 && w.db.users[2].life != w.changes[0].life
  {
    hide Strip, CaseFold, GroupAdmin.NameProblem, GroupAdmin.Canonical, Run, Answer;
    var ops := ReusedInTheGap(founder, group, member, generated);
    var w1 := Step(start, ops[0]);
    Founding(start, founder);
    var w2 := Step(w1, ops[1]);
    Grouping(w1, group);
    var w3 := Step(w2, ops[2]);
    Joining(w2, founder, member, generated);
    var w4 := Step(w3, ops[3]);
    assert GroupsOf(w3.db.memberships, 2) == {};
    var w5 := Step(w4, ops[4]);
    Leaving(w4);
    Joining(w5, founder, member, generated);
    RunOfSix(start, ops[..6], w1, w2, w3, w4, w5, Step(w5, ops[5]));
  }

  /** Revisions only protect one life of an id: the change read from the deleted user commits on
      its successor, which was created with no group. */
  lemma StaleChangeHitsSuccessor(start: World, founder: Founder, group: string, member: Member, generated: string)
    requires Initial(start) && founder.Acceptable() && member.Acceptable(founder) && !GroupAdmin.NameProblem(group)
    ensures
      var ops := ReusedInTheGap(founder, group, member, generated);
      var w := Run(start, ops[..6]);
      && 0 in w.changes && w.changes[0].target == 2 && 2 in w.db.users
      && w.db.users[2].life != w.changes[0].life
      && UserAdmin.CommitMemberships(w.db, w.changes[0]).outcome == Success
      && (2, 1) in Run(start, ops).db.memberships
  {
    hide Strip, CaseFold, GroupAdmin.NameProblem, Founder.Acceptable, Member.Acceptable;
    SuccessorAwaits(start, founder, group, member, generated);
    var ops := ReusedInTheGap(founder, group, member, generated);
    var w := Run(start, ops[..6]);
    assert ops == ops[..6] + [ops[6]];
    RunSplits(start, ops[..6], [ops[6]]);
    assert Run(w, [ops[6]]) == Run(Step(w, ops[6]), []);
  }

  lemma RunOfSix(
    w0: World, ops: seq<Op>, w1: World, w2: World, w3: World, w4: World, w5: World, w6: World)
    requires |ops| == 6
    requires w1 == Step(w0, ops[0]) && w2 == Step(w1, ops[1]) && w3 == Step(w2, ops[2])
    requires w4 == Step(w3, ops[3]) && w5 == Step(w4, ops[4]) && w6 == Step(w5, ops[5])
    ensures Run(w0, ops) == w6
  {
    hide Step;
    RunOfFive(w0, ops[..5], w1, w2, w3, w4, w5);
    assert ops == ops[..5] + [ops[5]];
    RunSplits(w0, ops[..5], [ops[5]]);
    assert Run(w5, [ops[5]]) == Run(w6, []);
  }
}

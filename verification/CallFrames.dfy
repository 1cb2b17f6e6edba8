/** Which calls write which tables, from the frames their specifications promise. */
module CallFrames {
  import opened Records
  import opened PortalMachine
  import UserAdmin
  import GroupAdmin
  import ServiceCatalog
  import SignIn
  import PasswordReset
  import ProxyAuthorization

  lemma OnlyEntryWritesTickets(db: Db, cookies: set<Cookie>, call: Call)
    requires !call.EnterService?
    ensures Answer(db, cookies, call).db.tickets == db.tickets
  {
    hide UserAdmin.CreateUser, UserAdmin.UpdateUser, UserAdmin.SetUserStatus, UserAdmin.DeleteUser;
    hide GroupAdmin.CreateGroup, GroupAdmin.UpdateGroup, GroupAdmin.SetGroupActive, GroupAdmin.RemoveGroup;
    hide ServiceCatalog.SaveService, SignIn.Bootstrap, SignIn.EnsureSchema, SignIn.SignIn, SignIn.SignOut, SignIn.ChangePassword;
    hide PasswordReset.InitiateReset, PasswordReset.FailDelivery, PasswordReset.CompleteReset;
    hide ProxyAuthorization.EnterService, ProxyAuthorization.AuthorizeCookie;
  }

  lemma OnlySavingWritesServices(db: Db, cookies: set<Cookie>, call: Call)
    requires !call.SaveService?
    ensures Answer(db, cookies, call).db.services == db.services
  {
    hide UserAdmin.CreateUser, UserAdmin.UpdateUser, UserAdmin.SetUserStatus, UserAdmin.DeleteUser;
    hide GroupAdmin.CreateGroup, GroupAdmin.UpdateGroup, GroupAdmin.SetGroupActive, GroupAdmin.RemoveGroup;
    hide ServiceCatalog.SaveService, SignIn.Bootstrap, SignIn.EnsureSchema, SignIn.SignIn, SignIn.SignOut, SignIn.ChangePassword;
    hide PasswordReset.InitiateReset, PasswordReset.FailDelivery, PasswordReset.CompleteReset;
    hide ProxyAuthorization.EnterService, ProxyAuthorization.AuthorizeCookie;
  }

  predicate WritesUsers(call: Call) {
    || call.CreateUser? || call.UpdateUser? || call.SetUserStatus? || call.DeleteUser?
    || call.Bootstrap? || call.ChangePassword? || call.CompleteReset?
  }

  lemma OthersKeepUsers(db: Db, cookies: set<Cookie>, call: Call)
    requires !WritesUsers(call)
    ensures Answer(db, cookies, call).db.users == db.users
  {
    hide UserAdmin.CreateUser, UserAdmin.UpdateUser, UserAdmin.SetUserStatus, UserAdmin.DeleteUser;
    hide GroupAdmin.CreateGroup, GroupAdmin.UpdateGroup, GroupAdmin.SetGroupActive, GroupAdmin.RemoveGroup;
    hide ServiceCatalog.SaveService, SignIn.Bootstrap, SignIn.EnsureSchema, SignIn.SignIn, SignIn.SignOut, SignIn.ChangePassword;
    hide PasswordReset.InitiateReset, PasswordReset.FailDelivery, PasswordReset.CompleteReset;
    hide ProxyAuthorization.EnterService, ProxyAuthorization.AuthorizeCookie;
  }

  predicate WritesMembers(call: Call) {
    || call.CreateUser? || call.DeleteUser?
    || call.CreateGroup? || call.UpdateGroup? || call.SetGroupActive? || call.RemoveGroup?
  }

  lemma OthersKeepMembers(db: Db, cookies: set<Cookie>, call: Call)
    requires !WritesMembers(call)
    ensures Answer(db, cookies, call).db.memberships == db.memberships && Answer(db, cookies, call).db.groups == db.groups
  {
    hide UserAdmin.CreateUser, UserAdmin.UpdateUser, UserAdmin.SetUserStatus, UserAdmin.DeleteUser;
    hide GroupAdmin.CreateGroup, GroupAdmin.UpdateGroup, GroupAdmin.SetGroupActive, GroupAdmin.RemoveGroup;
    hide ServiceCatalog.SaveService, SignIn.Bootstrap, SignIn.EnsureSchema, SignIn.SignIn, SignIn.SignOut, SignIn.ChangePassword;
    hide PasswordReset.InitiateReset, PasswordReset.FailDelivery, PasswordReset.CompleteReset;
    hide ProxyAuthorization.EnterService, ProxyAuthorization.AuthorizeCookie;
  }
}

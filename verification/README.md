# Proofs about the identity portal

A Dafny model of the portal that signs users in, lets administrators manage users, groups and
services, and opens internal services through an authenticating proxy, with proofs of what it keeps
in every run. `dafny verify dfyconfig.toml` checks all of it.

## How it is organised

- `Records` holds the tables as values. `UserAdmin`, `GroupAdmin`, `ServiceCatalog`, `SignIn`,
  `PasswordReset` and `ProxyAuthorization` say, per service call, what it answers and what it
  commits; `Access` says what access means. `Text` and `Order` are the string operations and the
  string order the services rely on.
- `Portal` is the store as the services work on it: a class with one field per table and one method
  per service call, with the loops, counts and early returns of the code. Each method keeps the
  store's invariant and is proved to answer and to leave exactly what its specification says.
- `PortalMachine` runs the specifications as one state machine. A service call is one transaction,
  except where the code gives up control between reading and writing: `change_memberships` and
  `consume_launch_ticket` are split at their compare-and-set, the compatibility check at its network
  round trip, and a reset's delivery may fail at any later time. Any number of those may be in
  progress and interleave with everything else. Row ids of deleted users and groups may be reused;
  session ids, tokens and salts never repeat.
- `StoreInvariant`, `StoreSteps` and `PortalSafety` prove, concern by concern, that every step keeps
  the invariant and only moves forward; `CallFrames` says which calls write which tables. `PortalTheorems`, `MembershipTheorems`, `ResetTheorems`,
  `CatalogueTheorems`, `AccessTheorems`, `AccountTheorems`, `SignInTheorems`, `LaunchTheorems` and
  `Health` draw the conclusions about whole runs; `AdministrationTheorems` says who may manage what,
  exactly when a management call goes through, and what it leaves; `Races` holds the runs in which a split call meets a change made in
  its gap.
- `RateLimit` and `RateLimitTheorems`, `HeaderPolicy`, `ProxyHost` and `Manifest` stand alone.

`User.life` and `Service.verdictFor` are not columns. The first tells apart users who successively
own one id, the second remembers what a compatibility verdict was about; no decision of the model
reads either.

## Where the code falls short of what one would expect

Each is proved from the model with the exact condition or a run that shows it.

- A group removed between the read and the compare-and-set of a membership change leaves a
  membership of a group that does not exist, and the next group that is given the id inherits the
  member (`MembershipTheorems.GroupRefsIff`, `Races.RemovedGroupKeepsItsMember`). No foreign key is
  enforced (src/auth_ingress/repositories/database.py:16-22).
- The revision in the compare-and-set protects one life of a user id only: a change lands on the user
  it was read from if and only if that user was not deleted in the gap
  (`MembershipTheorems.NoLostUpdate`, `Races.StaleChangeHitsSuccessor`).
- Saving a service while its compatibility check waits for the upstream answer leaves it a verdict
  about the replaced destination or flags, unless the check finds the status it had loaded
  (`CatalogueTheorems.VerdictsCurrentIff`, `CatalogueTheorems.StaleVerdict`).
- `allow` asks and records in two critical sections, so calls in flight together exceed the limit by
  up to one less than their number (`RateLimitTheorems.GrantsPerWindow`,
  `RateLimitTheorems.OverlapReachesTheBound`).
- The preview of `update_user` does not look for an address collision
  (`AccountTheorems.PreviewPredictsApplyIff`).
- An account whose address holds a character such as `É` or `ß` cannot sign in with it: the query
  compares the engine's ASCII-only `lower()` with a `casefold` (`AccountTheorems.NewAccountSignsInIff`).
- A base domain made of dots only parses to an empty host, and one that is an IPvFuture literal may
  parse to a host with colons or a bracket; neither's service authorities parse back
  (`ProxyHost.SlugRoundTripIff`).

## Model

| member | source | states |
|---|---|---|
| `PortalSafety.StepKeepsSafe` | src/auth_ingress/services/user_admin_service.py:53-212 | Every step of the portal, split or whole, keeps the store's invariant, what pending requests know, and the record of redeemed tickets, and only moves each table forward |
| `PortalSafety.ReachableIsSafe` | src/auth_ingress/services/user_admin_service.py:53-212 | The same for every state any interleaved run reaches from an empty store |
| `PortalTheorems.RevisionIsVersion` | src/auth_ingress/services/user_admin_service.py:157-158 | Version stamp: from any point of a run until the user is deleted, revisions never fall, and the same revision means the same row (email, name, status, flag, credential, password hash) and the same membership set |
| `PortalTheorems.ChangesAddOne` | src/auth_ingress/web/routes/auth.py:109-115 | No step that does not delete the user changes the account without raising its revision by exactly one |
| `PortalTheorems.LifeIff` | src/auth_ingress/services/user_admin_service.py:184-212 | A user of one point of a run is the same person at a later point, not a successor under the id, if and only if no step between them deleted that user |
| `PortalTheorems.AlwaysRecoverable` | src/auth_ingress/services/user_admin_service.py:128-134 | Every reachable store is untouched, or is initialized and has an active administrator with a permanent credential |
| `PortalTheorems.BootstrapSucceedsIff` | src/auth_ingress/services/bootstrap_service.py:38-73 | In a reachable store bootstrapping succeeds if and only if there is no user and the input is valid |
| `PortalTheorems.BootstrapAtMostOnce` | src/auth_ingress/services/bootstrap_service.py:43-71 | After one successful bootstrap no other one in any continuation succeeds or changes anything |
| `PortalTheorems.SessionsEnd` | src/auth_ingress/services/session_service.py:55-62 | Disabling, changing the administrator flag, completing a reset and deleting leave every session of the user revoked or gone |
| `PortalTheorems.DeadOpensNothing` | src/auth_ingress/services/session_service.py:34-46 | A revoked or deleted session validates at no time, and no ticket, cookie or service entry that names it is accepted |
| `PortalTheorems.RevocationIsPermanent` | src/auth_ingress/services/user_admin_service.py:159-160 | After such a call no session the user had ever validates again in any continuation, reactivation and id reuse included |
| `PortalTheorems.CookiesOnlyForPermanentCredentials` | src/auth_ingress/services/proxy_authorization_service.py:94-110 | Every accepted service cookie belongs to a user whose credential is permanent and who may enter the service, although neither redeeming nor accepting looks at the credential |
| `PortalTheorems.TicketsAreWonOnce` | src/auth_ingress/services/proxy_authorization_service.py:64-91 | Under any interleaving of redemptions split at read, check and compare-and-set: each ticket has at most one winner, who holds the ticket's own session and service, and `consumed_at` is set exactly when somebody won |
| `PortalTheorems.CompareAndSetHasOneWinner` | src/auth_ingress/services/proxy_authorization_service.py:82-90 | The conditional UPDATE adds one winner of a ticket nobody had won and marks that ticket alone, or changes nothing |
| `PortalTheorems.LosersMarkNothing` | src/auth_ingress/services/proxy_authorization_service.py:87-89 | Every step of the portal either adds one winner and marks just that winner's ticket or leaves every existing ticket as it was |
| `LaunchTheorems.CookieAcceptedIff` | src/auth_ingress/services/proxy_authorization_service.py:94-110 | In any run a cookie is accepted for a service exactly when it was signed here for that very service and has not expired, its session validates, the service is enabled and proxied and the owner may enter it; somebody then redeemed a ticket of that session and service |
| `LaunchTheorems.EntrySucceedsIff` | src/auth_ingress/web/routes/services.py:32-59 | In a reachable store a service is entered, proxied or not, exactly by the owner of a valid session with a permanent credential who may enter an enabled service of that slug; a ticket is issued exactly when it is proxied, for that session and service |
| `LaunchTheorems.RedemptionSucceedsIff` | src/auth_ingress/services/proxy_authorization_service.py:64-91 | An uninterrupted redemption succeeds exactly with an unused, unexpired ticket of this service whose session validates, for a proxied service its owner may enter; just that ticket is marked, with the time it was read |
| `LaunchTheorems.WinnersWereCleared` | src/auth_ingress/services/proxy_authorization_service.py:75-81 | However requests interleave, whoever redeems a ticket passed the session, service and access checks for its session and service at some moment of the run |
| `LaunchTheorems.LaunchRoundTrip` | src/auth_ingress/web/routes/services.py:46-59 | Straight after a launch the ticket is redeemable for its own service if and only if neither it nor the session has expired; once redeemed it is refused at every time and for every service, and the winner's cookie is accepted exactly while the session lasts |
| `LaunchTheorems.UninterruptedRedemption` | src/auth_ingress/services/proxy_authorization_service.py:64-91 | The three steps of a redemption that nothing interrupts leave the store and hand out the cookie of the one service call |
| `AdministrationTheorems.OnlyAdminsManage` | src/auth_ingress/services/user_admin_service.py:18-22 | An actor who is not an active administrator with a permanent credential gets no success from any management call, not even a preview, and changes nothing |
| `AdministrationTheorems.OnlyAdminsReadMemberships` | src/auth_ingress/services/user_admin_service.py:54 | The same for a membership change: it is denied, and nothing becomes pending |
| `AdministrationTheorems.ChangesComeFromAdmins` | src/auth_ingress/services/user_admin_service.py:54 | Every membership change pending in a run was read for an actor who was an administrator when it was read |
| `AdministrationTheorems.OthersCheckIsRedundant` | src/auth_ingress/services/user_admin_service.py:128-134 | For an administrator acting, counting the other administrators never decides anything: a removal is let through exactly when it is not the actor's own |
| `AdministrationTheorems.CreateUserExactly` | src/auth_ingress/services/user_admin_service.py:87-115 | When a creation succeeds, and the one row and the memberships it adds |
| `AdministrationTheorems.UpdateUserSucceedsIff` | src/auth_ingress/services/user_admin_service.py:137-164 | A profile update succeeds exactly when something is requested, all of it is acceptable and free, and nobody takes the flag from themselves |
| `AdministrationTheorems.UpdateUserStores` | src/auth_ingress/services/user_admin_service.py:156-162 | The requested fields under the next revision; the user's sessions end exactly when the flag changes |
| `AdministrationTheorems.SetUserStatusExactly` | src/auth_ingress/services/user_admin_service.py:168-181 | The status moves exactly when it is another one and nobody disables themselves; then the row has it, under the next revision, and only a disabling ends the user's sessions |
| `AdministrationTheorems.DeleteUserExactly` | src/auth_ingress/services/user_admin_service.py:184-212 | An administrator deletes everybody but themselves, with exactly the rows the account owns |
| `AdministrationTheorems.MembershipReadIff` | src/auth_ingress/services/user_admin_service.py:53-70 | A membership change becomes pending exactly when an administrator looking at the present revision asks for existing groups other than the stored ones |
| `AdministrationTheorems.ChangeMembershipsExactly` | src/auth_ingress/services/user_admin_service.py:53-84 | An uninterrupted change succeeds exactly then, and leaves the user exactly the desired groups |
| `AdministrationTheorems.StaleOrMissingUser` | src/auth_ingress/services/user_admin_service.py:118-125 | An unknown user is answered not found and a stale revision conflict, by every call that takes them, and nothing changes |
| `AdministrationTheorems.CreateGroupExactly` | src/auth_ingress/services/group_admin_service.py:163-181 | When a group is created, and the one row it adds |
| `AdministrationTheorems.UpdateGroupExactly` | src/auth_ingress/services/group_admin_service.py:188-212 | When a group is changed, and what its row then holds |
| `AdministrationTheorems.SetGroupActiveExactly` | src/auth_ingress/services/group_admin_service.py:223-268 | A group is deactivated exactly when an active administrator is outside it and reactivated always; nothing else moves |
| `AdministrationTheorems.RemoveGroupExactly` | src/auth_ingress/services/group_admin_service.py:271-286 | A group is removed exactly when nobody is a member and no service names it; the administrator check decides only which refusal is answered |
| `AdministrationTheorems.StaleOrMissingGroup` | src/auth_ingress/services/group_admin_service.py:56-65 | An unknown group is answered not found and a stale revision conflict, and nothing changes |
| `AdministrationTheorems.NameJoinsWords` | src/auth_ingress/services/group_admin_service.py:43-44 | A stored group name is the words of what was typed in, joined with single spaces |
| `AdministrationTheorems.DescriptionIsCut` | src/auth_ingress/services/group_admin_service.py:166 | A description is stored stripped and cut to 500 characters, and not at all when blank |
| `MembershipTheorems.OwnersAlwaysExist` | src/auth_ingress/services/user_admin_service.py:204-210 | In every reachable store memberships, sessions and reset requests name existing users, and rules join existing services to existing groups |
| `MembershipTheorems.NothingIsInherited` | src/auth_ingress/services/user_admin_service.py:87-115 | A created user has exactly the requested groups and no session or reset request, also under a reused id |
| `MembershipTheorems.NoLostUpdate` | src/auth_ingress/services/user_admin_service.py:63-76 | A change is read, anything happens in the gap, the compare-and-set hits a row: it lands on the user it was read from if and only if no step of the gap deleted that user; then the stored set is still the one read, so the reported additions and removals are exactly the committed difference, and nobody else's rows move |
| `MembershipTheorems.OneSuccessPerRevision` | src/auth_ingress/services/user_admin_service.py:71-74 | Of all changes that expect one revision of one user, at most one ever commits while that user is not deleted; the others answer conflict and change nothing |
| `MembershipTheorems.GroupRefsIff` | src/auth_ingress/services/user_admin_service.py:59-76 | With the other calls atomic, throughout a run every membership names an existing group if and only if no membership change of the run commits after one of its groups was removed |
| `MembershipTheorems.UninterruptedChangeKeepsGroupRefs` | src/auth_ingress/services/user_admin_service.py:53-84 | Read and committed back to back, a change succeeds and never breaks those references |
| `MembershipTheorems.UninterruptedChange` | src/auth_ingress/services/user_admin_service.py:53-84 | The two steps of a change that nothing interrupts are the one service call |
| `Races.RemovedGroupKeepsItsMember` | src/auth_ingress/services/group_admin_service.py:271-286 | A run, from any empty store, in which a group removed in the gap of a membership change leaves its membership behind, and the next group given the id has a member nobody put there |
| `Races.StaleChangeHitsSuccessor` | src/auth_ingress/services/user_admin_service.py:71-76 | A run in which a change read from a deleted user commits on the user created under the reused id; `MembershipTheorems.NoLostUpdate` says for all runs when that happens |
| `ResetTheorems.InitiateExactly` | src/auth_ingress/services/password_reset_service.py:59-68 | Who can start a reset; the new request is the user's, fresh and expires in time, the user's open ones are closed, nobody else's move |
| `ResetTheorems.FailureClosesOne` | src/auth_ingress/services/password_reset_service.py:71-75 | A failed delivery closes its own request and no other |
| `ResetTheorems.CompletionStores` | src/auth_ingress/services/password_reset_service.py:85-92 | A completion consumes its own request, replaces its user's password and ends that user's sessions; every other row stays |
| `ResetTheorems.AtMostOneOpenRequest` | src/auth_ingress/services/password_reset_service.py:59-68 | No user ever has two requests that are neither consumed nor invalidated, deliveries failing at any later time included |
| `ResetTheorems.CompletionSucceedsIff` | src/auth_ingress/services/password_reset_service.py:79-96 | In a reachable store a completion succeeds if and only if the token is usable and the password long enough, with the stated effect on the account, and a failed one changes nothing |
| `ResetTheorems.SpendingSpends` | src/auth_ingress/services/password_reset_service.py:61-75 | A newer request, a failed delivery, a completion and a deletion each close the token |
| `ResetTheorems.SpentTokenNeverCompletes` | src/auth_ingress/services/password_reset_service.py:48-52 | A superseded, failed, used or orphaned token never completes in any continuation, and trying it changes nothing |
| `ResetTheorems.ExpiredTokenNeverCompletes` | src/auth_ingress/services/password_reset_service.py:50-51 | No later step moves a request's expiry: past it the token is useless in every continuation |
| `CatalogueTheorems.CatalogueAlwaysSound` | src/auth_ingress/services/service_admin_service.py:58-99 | In every reachable store slugs are distinct, every enabled service has a rule to an existing group, and WebSockets imply proxying |
| `CatalogueTheorems.SaveSucceedsIff` | src/auth_ingress/services/service_admin_service.py:53-77 | In a reachable store a form is saved exactly when its fields are acceptable, every group it lists is an active one (which the code finds out by comparing two counts), an enabled service lists one, and no other service has the slug |
| `CatalogueTheorems.SaveStoresForm` | src/auth_ingress/services/service_admin_service.py:78-95 | A save writes the form's fields to the service it was opened for, or to a new one, and leaves every other service alone |
| `CatalogueTheorems.SaveReplacesRules` | src/auth_ingress/services/service_admin_service.py:97-98 | A save replaces the access rules: exactly the active groups the form lists are rules of the service, exactly their active members may enter it, if it is enabled, and rules of and access to every other service stay |
| `CatalogueTheorems.VerdictIff` | src/auth_ingress/services/service_compatibility_service.py:20-44 | Which observations come to failed, to compatible and to limited |
| `CatalogueTheorems.VerdictIsAllThatMoves` | src/auth_ingress/services/service_compatibility_service.py:45-48 | A finished check moves one status, if it differs from the one loaded, and nothing else |
| `CatalogueTheorems.VerdictsCurrentIff` | src/auth_ingress/services/service_compatibility_service.py:41-49 | Throughout a run every verdict other than unchecked is about the service's present destination and flags if and only if no check of the run writes a status that differs from the one it loaded after they were replaced during its network round trip |
| `CatalogueTheorems.StaleVerdict` | src/auth_ingress/services/service_compatibility_service.py:24-25 | A run in which saving a service during the round trip of its check leaves it a verdict for the replaced policy |
| `Access.UsableIffMayEnter` | src/auth_ingress/services/access_service.py:60-63 | A record is `currently_usable` exactly when `may_enter` holds |
| `AccessTheorems.RecordsAgreeWithEntry` | src/auth_ingress/services/access_service.py:47-65 | Every service has exactly one record, usable exactly when `may_enter` holds, whose granting groups are the ascending duplicate-free list of the active groups that grant it |
| `AccessTheorems.ReasonIff` | src/auth_ingress/services/access_service.py:60-64 | A record repeats the service's columns and gives the first reason that keeps the user out: account, then service, then group |
| `AccessTheorems.DeactivationRemovesExactly` | src/auth_ingress/services/group_admin_service.py:223-252 | Deactivating a group takes away exactly the accesses no other group grants, and leaves an active administrator outside it |
| `AccessTheorems.ReactivationRestores` | src/auth_ingress/services/group_admin_service.py:255-268 | Reactivating straight after succeeds and restores every access; only the revision has moved, by two |
| `AccessTheorems.RemovalChangesNoAccess` | src/auth_ingress/services/group_admin_service.py:271-286 | Removing a group, or failing to, changes nobody's access to anything |
| `AccessTheorems.ReportedIffChanged` | src/auth_ingress/services/user_admin_service.py:80-81 | A service is reported as changed exactly when its record is new or differs |
| `AccessTheorems.ReportIsExactPatch` | src/auth_ingress/services/user_admin_service.py:80-81 | Written over the records before, the report gives exactly the records after |
| `AccessTheorems.ChangeReportIsExactPatch` | src/auth_ingress/services/user_admin_service.py:67-84 | The same for every membership change in every run, also when other calls commit in its gap |
| `AccessTheorems.ChangeMovesNobodyElse` | src/auth_ingress/services/user_admin_service.py:75-76 | A membership change moves no other user's access and no other user's records |
| `AccountTheorems.PreviewPredictsApplyIff` | src/auth_ingress/services/user_admin_service.py:154-164 | A preview changes nothing and answers what applying answers, except that a profile update whose new address is taken is previewed as a success and refused only when applied |
| `AccountTheorems.RefusalsChangeNothing` | src/auth_ingress/services/user_admin_service.py:118-134 | A call that does not succeed leaves nothing behind but a session's last-seen time |
| `SignInTheorems.SignInSucceedsIff` | src/auth_ingress/web/routes/auth.py:63-79 | In a reachable store somebody signs in exactly when setup is done and some row has the address, the password, an active status and a usable credential; exactly one session is then new, and a refusal changes nothing |
| `SignInTheorems.OnlyTheNewPasswordSignsIn` | src/auth_ingress/services/password_reset_service.py:85-92 | After a changed or reset password, until the account is changed again or deleted, its owner signs in with that password and no other one |
| `SignInTheorems.ChangePasswordSucceedsIff` | src/auth_ingress/web/routes/auth.py:104-113 | The password route replaces exactly a temporary credential, for the holder of a valid session, with a password that is long enough |
| `SignInTheorems.DisabledIsLockedOut` | src/auth_ingress/services/session_service.py:41-43 | While a row is disabled its user cannot sign in, no session of the user validates and no service can be entered |
| `SignInTheorems.DisablingLocksOut` | src/auth_ingress/services/user_admin_service.py:177-178 | Once disabled a user stays locked out in every continuation until the account is changed again or deleted |
| `SignInTheorems.ReactivationRestoresAccess` | src/auth_ingress/services/user_admin_service.py:168-181 | Disabling and reactivating straight after restores every access and every column but the revision; only the user's sessions stay ended |
| `SignInTheorems.SignedOutForGood` | src/auth_ingress/web/routes/auth.py:128-132 | Signing out succeeds exactly for a session that validates; it never validates again in any continuation, and no other session is touched |
| `SignInTheorems.BootstrapStores` | src/auth_ingress/services/bootstrap_service.py:57-71 | The founder's row and the singleton row after a successful bootstrap |
| `SignInTheorems.EnsureSchemaExactly` | src/auth_ingress/repositories/schema.py:103-121 | Opening the store marks it initialized exactly when it already was or has users, touches nothing else, and is idempotent |
| `AccountTheorems.SignInOpensOneSession` | src/auth_ingress/services/session_service.py:20-31 | A sign-in opens one new session, valid exactly until it expires, and moves no other session's validity |
| `AccountTheorems.TemporaryPasswordReplacedForGood` | src/auth_ingress/web/routes/auth.py:94-116 | A temporary password is replaced for good: until the user is deleted the credential stays permanent, no session replaces it this way again, and until the account changes the password is the one chosen |
| `AccountTheorems.QueryHasOneAnswer` | src/auth_ingress/services/authentication_service.py:13 | Stored addresses being unique by their fold, the address query of sign-in has at most one answer |
| `AccountTheorems.NewAccountSignsInIff` | src/auth_ingress/services/authentication_service.py:12-16 | In a reachable store the address query finds a new active account by its Latin-1 address, and the generated password signs in, if and only if the address holds no character that `casefold` changes and the engine's `lower()` does not; it never finds anybody else |
| `Health.ReadinessOfReachableStores` | src/auth_ingress/services/health_service.py:264-526 | The whole table of readiness answers over reachable stores; `identity_degraded` is not among them |
| `Portal.Store.EntryAllowed` | src/auth_ingress/services/access_service.py:31-44 | `may_enter` answers the relational definition of access |
| `Portal.Store.ListPermittedServices` | src/auth_ingress/services/access_service.py:9-28 | The join of rules with enabled services, filtered by membership and active group and made distinct, lists exactly the services for which `may_enter` holds, once each, by display name |
| `Portal.Store.OrderByName` | src/auth_ingress/services/access_service.py:59 | Lists exactly the given services, ascending by display name and then by id |
| `Portal.Store.CollectGrants` | src/auth_ingress/services/access_service.py:48-57 | The dictionary holds, per service, exactly the names of the active groups that grant it to the user |
| `Portal.Store.EffectiveAccess` | src/auth_ingress/services/access_service.py:47-65 | The loops produce each service's record once, by display name and then by id |
| `Portal.Store.RequireAdmin` | src/auth_ingress/services/user_admin_service.py:18-22 | Grants exactly active administrators with a permanent credential |
| `Portal.Store.TargetForChange` | src/auth_ingress/services/user_admin_service.py:118-125 | Answers the first of denied, not found and conflict that applies |
| `Portal.Store.ProtectAdminChange` | src/auth_ingress/services/user_admin_service.py:128-134 | Counting the others lets a removal through exactly when it is not the actor's own and another active administrator stays |
| `Portal.Store.RevokeUserSessions` | src/auth_ingress/services/session_service.py:55-62 | The loop revokes exactly the user's unrevoked sessions and changes nothing else about any session |
| `Portal.Store.ChangeMemberships` | src/auth_ingress/services/user_admin_service.py:53-84 | Keeps the invariant, commits what its specification says, reports the exact difference of the membership sets, and its access report written over the access before gives the access after |
| `Portal.Store.CommitMemberships` | src/auth_ingress/services/user_admin_service.py:71-77 | The conditional UPDATE and the replaced rows, on whatever store it meets |
| `Portal.Store.CreateUser` | src/auth_ingress/services/user_admin_service.py:87-115 | Answers the first refusal that applies (denied, email, name, status, address taken, unknown group), or inserts one row with a fresh id, revision 1, a temporary credential and exactly the requested memberships; keeps the store invariant |
| `Portal.Store.ProfileToStore` | src/auth_ingress/services/user_admin_service.py:138-155 | The checks of a profile update decide its answer, or the row that is stored |
| `Portal.Store.UpdateUser` | src/auth_ingress/services/user_admin_service.py:137-165 | Stores the requested fields under the next revision and ends the user's sessions exactly when the administrator flag changes; any other answer changes nothing; keeps the store invariant |
| `Portal.Store.SetUserStatus` | src/auth_ingress/services/user_admin_service.py:168-181 | Stores the status under the next revision and ends the user's sessions exactly when disabling; any other answer changes nothing; keeps the store invariant |
| `Portal.Store.DeleteUser` | src/auth_ingress/services/user_admin_service.py:184-212 | The user's row, memberships, sessions and requests go, requests the user made lose their author, tickets stay; any other answer changes nothing; keeps the store invariant |
| `Portal.Store.ProtectLastAdminGroup` | src/auth_ingress/services/group_admin_service.py:223-235 | Comparing the two id sets decides whether an active administrator is outside the group |
| `Portal.Store.DependencySummary` | src/auth_ingress/services/group_admin_service.py:92-94 | The two counts, and that one is positive exactly when somebody depends on the group |
| `Portal.Store.CreateGroup` | src/auth_ingress/services/group_admin_service.py:163-181 | Inserts one active group under a fresh id whose folded name nobody has, or refuses in the code's order; keeps the store invariant |
| `Portal.Store.UpdateGroup` | src/auth_ingress/services/group_admin_service.py:188-212 | Stores name, folded name and description under the next revision, or answers the refusal or `NO_CHANGE` the code would; keeps the store invariant |
| `Portal.Store.DeactivateGroup` | src/auth_ingress/services/group_admin_service.py:238-252 | Deactivates only with an active administrator outside the group, under the next revision; keeps the store invariant |
| `Portal.Store.ReactivateGroup` | src/auth_ingress/services/group_admin_service.py:255-268 | Reactivates under the next revision, without the administrator check; keeps the store invariant |
| `Portal.Store.RemoveGroup` | src/auth_ingress/services/group_admin_service.py:271-286 | Deletes the row only with an active administrator outside the group and no membership or rule left; keeps the store invariant |
| `CatalogueTheorems.VerdictSurvivesIff` | src/auth_ingress/services/service_admin_service.py:79-95 | A successful save writes one service, and a service has a verdict afterwards if and only if it had that verdict before and kept destination and flags |
| `Portal.Store.SaveService` | src/auth_ingress/services/service_admin_service.py:40-102 | Writes the one row, its rules replaced by the named active groups, only if no other service has the slug; a refused form changes nothing; keeps the store invariant |
| `Portal.Store.RecordCompatibility` | src/auth_ingress/services/service_compatibility_service.py:20-49 | Lowering the status finding by finding writes the verdict of the specification on whatever row is there now, and nothing when it is the status that was loaded; keeps the store invariant |
| `Portal.Store.EnsureInstallationState` | src/auth_ingress/repositories/schema.py:103-121 | Inserts or repairs the singleton row from the number of users and touches nothing else; keeps the store invariant |
| `Portal.Store.MarkInstallationInitialized` | src/auth_ingress/services/bootstrap_service.py:26-35 | The singleton row after the call, the first time stamp kept |
| `Portal.Store.BootstrapAdmin` | src/auth_ingress/services/bootstrap_service.py:38-73 | The first administrator and the initialized singleton row together, or an unchanged store; keeps the store invariant |
| `Portal.Store.ValidateSession` | src/auth_ingress/services/session_service.py:34-46 | Answers the owner exactly of a valid session, and touches that session only |
| `Portal.Store.SignInRoute` | src/auth_ingress/web/routes/auth.py:73-79 | Opens a fresh session exactly for an active user whose password verifies; a refusal means that no row could have signed in this way; keeps the store invariant |
| `Portal.Store.SignOutRoute` | src/auth_ingress/web/routes/auth.py:128-132 | Revokes exactly a session that validates; keeps the store invariant |
| `Portal.Store.ChangePasswordRoute` | src/auth_ingress/web/routes/auth.py:104-115 | Replaces a temporary password only, making the credential permanent under the next revision; keeps the store invariant |
| `Portal.Store.InvalidateOpen` | src/auth_ingress/services/password_reset_service.py:60-63 | The loop closes exactly the user's open requests |
| `Portal.Store.InitiateReset` | src/auth_ingress/services/password_reset_service.py:59-68 | Closes the user's open requests and inserts a fresh one that is usable until it expires; keeps the store invariant |
| `Portal.Store.DeliveryFailed` | src/auth_ingress/services/password_reset_service.py:71-75 | Closes the request, whatever happened since the commit, and nothing when the row is gone; keeps the store invariant |
| `Portal.Store.CompleteReset` | src/auth_ingress/services/password_reset_service.py:79-96 | Password, permanent credential, next revision, consumed request and ended sessions together, or an unchanged store; keeps the store invariant |
| `Portal.Store.EnterService` | src/auth_ingress/web/routes/services.py:32-47 | Issues a fresh ticket for the session and service only past the temporary-credential, status and access checks and only for a proxied service; keeps the store invariant |
| `Portal.Store.RedeemTicket` | src/auth_ingress/web/routes/proxy.py:80-95 | Marks the ticket and signs one cookie for the ticket's own session and service exactly on success; otherwise no ticket or cookie moves; keeps the store invariant |
| `Portal.Store.AuthorizeProxyCookie` | src/auth_ingress/services/proxy_authorization_service.py:94-110 | Accepts exactly a signed, unexpired cookie of this service whose session validates, for an open service the user may enter; at most touches the session; keeps the store invariant |
| `RateLimit.Limiter.PruneKey` | src/auth_ingress/security/rate_limit.py:15-20 | The while loop drops exactly the expired prefix of one deque; an empty deque leaves the dictionary |
| `RateLimit.Limiter.IsBlocked` | src/auth_ingress/security/rate_limit.py:22-29 | The loop over the keys answers and prunes as specified, stopping at the first full one |
| `RateLimit.Limiter.Failure` | src/auth_ingress/security/rate_limit.py:31-36 | The loop prunes and appends as specified, key by key |
| `RateLimit.Limiter.Success` | src/auth_ingress/security/rate_limit.py:38-41 | The loop forgets the keys as specified |
| `RateLimit.Limiter.Allow` | src/auth_ingress/security/rate_limit.py:44-49 | Grants exactly when not blocked, and records the grant in a second critical section |
| `RateLimit.PruningRefines` | src/auth_ingress/security/rate_limit.py:15-20 | Pruning leaves exactly the events of the full log that are still inside the window, and the deque stays a suffix of the log whose missing part has expired |
| `RateLimit.ForgettingIsExact` | src/auth_ingress/security/rate_limit.py:38-41 | A success forgets its keys and no other |
| `RateLimitTheorems.BlockedIsExact` | src/auth_ingress/security/rate_limit.py:22-29 | With a clock that never goes back from one section to the next, a question is refused exactly when, for one of its keys, at least `attempts` logged events are inside the window; other keys play no part |
| `RateLimitTheorems.AnswersFollowTheLog` | src/auth_ingress/security/rate_limit.py:22-41 | The same after any uses of a new limiter with a clock that never goes back |
| `RateLimitTheorems.GrantsPerWindow` | src/auth_ingress/security/rate_limit.py:44-49 | With at most `peak` calls for a key in flight, no half-open interval of the window's length holds more than `attempts - 1 + peak` of its grants. Clock readings need not ascend in the order of the lock: a record's reading is only not before those made up to its own question |
| `RateLimitTheorems.SequentialGrantsPerWindow` | src/auth_ingress/security/rate_limit.py:44-49 | Calls that do not overlap: at most `attempts` grants per key in any such interval |
| `RateLimitTheorems.OverlapReachesTheBound` | src/auth_ingress/security/rate_limit.py:46-48 | The bound is reached for every `attempts` and `peak`: overlapping calls get past the limit because asking and recording are separate critical sections |
| `HeaderPolicy.CollectTokens` | src/auth_ingress/services/proxy_header_policy.py:25-30 | The loop collects exactly the tokens all Connection fields list |
| `HeaderPolicy.RewriteSetCookie` | src/auth_ingress/services/proxy_header_policy.py:71-84 | The loop keeps the first part and every attribute but Domain, or refuses the cookie |
| `HeaderPolicy.FilterResponseHeaders` | src/auth_ingress/services/proxy_header_policy.py:87-100 | The loop produces the specified filtering |
| `HeaderPolicy.RewritingIsIdempotent` | src/auth_ingress/services/proxy_header_policy.py:71-84 | Rewriting a cookie twice is rewriting it once |
| `HeaderPolicy.NothingUnsafeSurvives` | src/auth_ingress/services/proxy_header_policy.py:87-100 | No hop-by-hop field, no field a Connection header lists (section 7.6.1 of RFC 9110) and no private field survives; no surviving cookie is reserved or has a Domain attribute |
| `HeaderPolicy.SurvivesIff` | src/auth_ingress/services/proxy_header_policy.py:87-100 | A field passes exactly when it is not hop-by-hop, not listed by Connection, not private and not an unacceptable cookie; anything but a cookie passes unchanged |
| `HeaderPolicy.WithoutDomainIsExact` | src/auth_ingress/services/proxy_header_policy.py:79-83 | Every attribute of a cookie but Domain is kept |
| `HeaderPolicy.FilteringIsIdempotent` | src/auth_ingress/services/proxy_header_policy.py:87-100 | Filtering twice is filtering once |
| `HeaderPolicy.FilteringKeepsOrder` | src/auth_ingress/services/proxy_header_policy.py:87-100 | The result is a subsequence of the input in which only Set-Cookie fields are rewritten |
| `ProxyHost.ParsedIsCanonical` | src/auth_ingress/security/proxy_host.py:11-19 | A parsed name is folded, free of delimiters and of a final dot, and its port fits |
| `ProxyHost.UserInfoIsRefused` | src/auth_ingress/security/proxy_host.py:13-14 | An authority with a user name or a password is refused, whatever host follows |
| `ProxyHost.PrintedParses` | src/auth_ingress/security/proxy_host.py:11-19 | Printing a parsed host with its port and parsing it again gives it back |
| `ProxyHost.SlugRoundTripIff` | src/auth_ingress/security/proxy_host.py:22-38 | Parsing a printed service authority gives back the slug if and only if the base domain has a host left after its trailing dots are dropped and that host is free of colons and brackets |
| `ProxyHost.SlugIff` | src/auth_ingress/security/proxy_host.py:22-31 | A host, a name or an IPvFuture literal, yields a slug exactly when it parses to that slug, a dot and the base host, with the base port |
| `ProxyHost.AuthoritiesAreApart` | src/auth_ingress/security/proxy_host.py:34-38 | Distinct slugs never share an authority, whatever the base domain |
| `ProxyHost.SlugHostsReachTheProxy` | src/auth_ingress/web/routes/proxy.py:35-41 | Every host that yields a slug is handed to the proxy |
| `Manifest.ReadManifest` | scripts/release/verify_staged_release.py:32-42 | The loop reads the lines as specified, with the three ways of failing |
| `Manifest.WriteHashManifest` | scripts/release/check_artifacts.py:142-144 | Writes one line per entry in the order of the names |
| `Manifest.ManifestRoundTrip` | scripts/release/verify_staged_release.py:32-42 | Reading a written manifest gives the map back exactly when it has two entries with digests of 64 characters; otherwise the error that fits |
| `Manifest.ManifestAcceptedIff` | scripts/release/verify_staged_release.py:32-42 | A manifest is accepted exactly when it has two lines, each with a digest of 64 characters, for two different files; it then maps those files to those digests and nothing else |

## Left out

- Cryptography: password hashes, token digests and signatures are symbolic. A hash recovers exactly
  its password, a token is its own digest, and a cookie is accepted only if it was signed before.
- The `max_age` of signed cookies, which only ever refuses more, and the whole-second truncation of
  a service cookie's expiry, which refuses it up to a second earlier; `validate_session` still
  compares the exact time.
- The object mapper: identity map, autoflush and expiry. Rows, UNIQUE columns, the row count of a
  conditional UPDATE and the compatibility status that is not written when it equals the loaded one
  are modelled.
- `IntegrityError` answers of `create_user`, `create_group` and `update_group`: inside one atomic
  transaction the query before has already found the duplicate. The one of `update_user` is modelled.
- Calls truly in parallel other than the split ones: each is taken as one atomic transaction, although
  the code takes a write lock only when bootstrapping
  (src/auth_ingress/services/bootstrap_service.py:45).
- MembershipTheorems.GroupRefsIff: holds with those calls atomic. `create_user` and `save_service` also
  read their groups before they insert rows, so a group removed in between leaves rows without a
  group there too.
- Search and pagination, and the order of services with one display name in the permitted list.
- The audit table. A blocked `remove_group` writes an audit event even as a preview, so frame claims
  are about the other tables.
- The administrator check in front of `save_service` and the compatibility check, which sits in their
  routes; the services themselves take no actor.
- CSRF checks, form state, templates and the password confirmation field.
- The limiter in the sign-in route: its effect is proved by itself, not inside the machine.
- The Python class hierarchy of the limiter: `allow` is a method of the one class.
- `validate_destination`: a form carries the answer of that check, and the stripped text.
- What the compatibility probe fetches: it is an observation with four findings. The summary text and
  the time of the check are not stored.
- Unicode beyond Latin-1 in `casefold`, and the NFKC test of URL parsing. `strip` covers all spaces.
- Bracketed IPv6 hosts: they yield no slug, as their slug part would hold a colon; whether they are
  handed to the proxy is not modelled. Text before a bracket, or after it other than a port, is an
  error, as in current releases of Python 3.12.
- `emit_health_transition` and the texts of the indicators.
- Unrecognised installation states and failing counts in the readiness checks; the audit check and
  the storage check are given as answers.
- `filter_request_headers`, `filter_cookie_header` and `rewrite_location`: the cookie parser and URL
  joining are library code.
- HTTP and WebSocket relaying, client pools, SMTP, DNS, the command line, the demo seed and the other
  release scripts.
- Portal.Store.RedeemTicket: one uninterrupted call; interleavings are the machine's.
- Portal.Store.ChangeMemberships: one uninterrupted call; interleavings are the machine's.
- AccountTheorems.NewAccountSignsInIff: only Latin-1 addresses, the range in which the fold is exact.
- Manifest.ManifestRoundTrip: for digests without spaces and file names without line breaks or edge
  spaces, which is what digests and artifact names are.

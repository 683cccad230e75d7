# Credential vault: authorization and membership model in Dafny

This project models the request handlers of a small credential vault. Users hold a role:
"normal", "management" or "admin". Org units contain named divisions. Each division lists
the ids of its member users and the accounts (name, username, password) it stores. The
model covers these handlers:

- **Registration and login** (`login_register.dfy`).
- **Credential handlers**:
  - viewing a division's credentials and adding one (`normal_user.dfy`);
  - updating one (`management_user.dfy`).
- **Admin handlers** (`admin_user.dfy`): changing a user's role, and assigning a user to or
  unassigning a user from a division.
- **Read-only listings** (`log.dfy`): the caller's own org units and divisions, and every
  user with theirs.

The other two files hold the shared model:

- `vault.dfy`: the data model, the directory and org-graph lookups, and the `Database` class
  whose two collections the handlers mutate.
- `aggregate.dfy`: the aggregation pipeline run by the handlers that read the org graph.
  - `$unwind` and `$match` become `Rows` and `Scope`.
  - `$group` is modelled as a fold, `Group`, which is proved equal to a per-org-unit
    reference listing, `Direct`.

Every mutating handler has two parts:

- A pure specification function `…Spec(store, inputs)` that returns the outcome and the new
  store, `Reply(status, store)`.
- A method on `Database` with `modifies db`, whose `ensures` ties the new snapshot and the
  status to that function.

The loops in the handlers are methods with loop invariants, each proved against a
specification function. Those loops are the duplicate scans, the registration scan, the
login scan and the all-users loop.

MongoDB semantics, as modelled:

- `findOne` and `updateOne` act on the first matching document.
- A positional `divisions.$` resolves to the first selected division.
- Dotted conditions on an array in one filter may be met by different elements.
- `modifiedCount > 0` means "the document changed".

Behaviour of the code that a reader may not expect, which the model reproduces:

- Login reports the last matching user, not the first, because the scan never stops early.
- The update handler treats a clash as a duplicate only when both the name and the username
  change. See Findings.
- getAllUsers answers a caller missing from the directory with the bad-token outcome.
  Everywhere else, a missing caller is a server error.
- An update whose new credential equals the old one reports "nothing updated".

## Model

| member | source | states |
|---|---|---|
| Vault.UserIndex | controllers/admin_user.controller.js:32 | `findOne({_id})`: the result is the first directory entry with that id; it is absent exactly when no entry has it |
| Vault.SetRole | controllers/admin_user.controller.js:50-63 | `$set` of the role: only the first entry with the id gets the new role; every other entry and the length are unchanged |
| Vault.FreshId | controllers/login_register.controller.js:62-66 | the id of a created user differs from (exceeds) every id already in the directory |
| Vault.Locate | controllers/admin_user.controller.js:252-267 | the target of a positional update: the first org unit hosting a selected division named d, and the first such division in it; absent exactly when no org unit hosts one |
| Vault.MemberIsLocated | controllers/admin_user.controller.js:252-267 | a member of `(ou, d)` guarantees that both the assign and the unassign updates find a division to write |
| Vault.Without | controllers/admin_user.controller.js:470-474 | `$pull` of an id: every occurrence goes, every other id keeps its count, and a duplicate-free list stays duplicate-free |
| Vault.WithoutSingle | controllers/admin_user.controller.js:470-474 | on one element, `$pull` removes it exactly when it is the pulled id |
| Vault.WithoutConcat | controllers/admin_user.controller.js:470-474 | `$pull` distributes over concatenation; with WithoutSingle this fixes the result, so the remaining ids keep their order |
| Vault.LocatedIsMemberDivision | controllers/admin_user.controller.js:252-267 | when no two divisions share `(ou, d)`, the division a positional update resolves to is the one the member belongs to |
| Vault.WithDivisionKeepsPairsUnique | controllers/normal_user.controller.js:249-267 | replacing one division by one free of duplicate (name, username) pairs keeps the whole store free of them |
| Aggregate.Scope | controllers/admin_user.controller.js:137-178 | the gate's extra `$match` keeps exactly the rows of org unit ou and division d |
| Aggregate.Rows | controllers/log.controller.js:36-59 | the two `$unwind` stages and the member-id `$match`, one row per (org unit, division) per listing of the user; its meaning is stated by RowsMembers |
| Aggregate.Group | controllers/log.controller.js:72-82 | the `$group` by org-unit id with `$first` name and `$push`ed items; its meaning is stated by GroupMatchesDirect, DirectSound, DirectComplete and DirectDistinct |
| Aggregate.RowsMembers | controllers/log.controller.js:36-59 | a row survives the two unwinds and the member-id match exactly when it pairs an org unit with one of its divisions listing the user |
| Aggregate.ScopedRowsIffMember | controllers/admin_user.controller.js:137-186 | the gate's result is non-empty exactly when the user is listed in a division d of an org unit named ou |
| Aggregate.ScopedPairIff | controllers/normal_user.controller.js:217-238 | scanning the gate's rows for a (name, username) pair finds it exactly when a division `(ou, d)` listing the user holds it |
| Aggregate.GroupMatchesDirect | controllers/log.controller.js:33-83 | with distinct org-unit ids, the `$group` fold over the pipeline rows equals the per-org-unit listing in first-appearance order |
| Aggregate.DirectSound | controllers/log.controller.js:72-82 | every grouped entry is one org unit under its own id and `$first` name, with a non-empty list of items pushed from divisions listing the user |
| Aggregate.DirectComplete | controllers/log.controller.js:72-82 | every org unit with a division listing the user gets an entry |
| Aggregate.DirectDistinct | controllers/log.controller.js:72-82 | no org-unit id is grouped twice |
| Aggregate.ItemsWithoutDuplicates | controllers/log.controller.js:44-59 | when no division lists a member twice, each division listing the user contributes exactly one item |
| AdminUser.UpdateRole | controllers/admin_user.controller.js:11-96 | the handler's status and new store are those of `UpdateRoleSpec`: missing caller, non-admin, invalid role, or the role written |
| AdminUser.AssignDivision | controllers/admin_user.controller.js:103-302 | the handler's status and new store are those of `AssignSpec`: role gate, caller membership gate, already-assigned check, `$push` |
| AdminUser.UnassignDivision | controllers/admin_user.controller.js:309-510 | the handler's status and new store are those of `UnassignSpec`: role gate, caller membership gate, not-assigned check, `$pull` |
| AdminUser.NonAdminRejected | controllers/admin_user.controller.js:38-80 | a caller whose stored role is not "admin" is refused by all three admin handlers (a missing caller as a server error) and nothing changes |
| AdminUser.InvalidRoleRejected | controllers/admin_user.controller.js:43-47 | an admin asking for a role other than the three is refused and nothing changes |
| AdminUser.UpdateRoleEffect | controllers/admin_user.controller.js:50-70 | with unique ids, a valid change succeeds, sets the role of the target's entry, and leaves every other entry and every org unit as they were |
| AdminUser.UpdateRoleKeepsRolesValid | controllers/admin_user.controller.js:43-63 | whatever the answer, every stored role stays one of the three |
| AdminUser.MembershipGateFirst | controllers/admin_user.controller.js:182-186 | an admin outside `(ou, d)` is refused by assign and by unassign, whatever the target's membership, and nothing changes |
| AdminUser.AssignAlreadyMember | controllers/admin_user.controller.js:242-246 | assigning a user already listed in `(ou, d)` is refused and nothing changes |
| AdminUser.UnassignNotMember | controllers/admin_user.controller.js:446-450 | unassigning a user not listed in `(ou, d)` is refused and nothing changes |
| AdminUser.PushMember | controllers/admin_user.controller.js:252-267 | the `$push` of a user id into one division; stated by PushMakesMember, PushKeepsNoDup, AssignEffect and AssignThenUnassign |
| AdminUser.PullMember | controllers/admin_user.controller.js:460-476 | the `$pull` of a user id from one division; stated by PullRemovesMember, PullKeepsNoDup and UnassignEffect |
| AdminUser.PushKeepsNoDup | controllers/admin_user.controller.js:262-266 | pushing an id the division does not list keeps every division free of repeated members |
| AdminUser.PullKeepsNoDup | controllers/admin_user.controller.js:470-474 | pulling an id keeps every division free of repeated members |
| AdminUser.PullRemovesMember | controllers/admin_user.controller.js:460-476 | when division keys are unique, after the pull the user is no member of `(ou, d)` |
| AdminUser.AssignDoneIff | controllers/admin_user.controller.js:133-267 | assign succeeds exactly for an admin caller who is a member of `(ou, d)` and a target who is not |
| AdminUser.UnassignDoneIff | controllers/admin_user.controller.js:339-476 | unassign succeeds exactly for an admin caller who is a member of `(ou, d)` and a target who is one too |
| AdminUser.AssignedDivision | controllers/admin_user.controller.js:252-267 | a successful assign pushes the target into the first division named `(ou, d)`, which did not list it |
| AdminUser.UnassignedDivision | controllers/admin_user.controller.js:460-476 | a successful unassign pulls the target from the first division named `(ou, d)` that lists it |
| AdminUser.AssignEffect | controllers/admin_user.controller.js:252-286 | a successful assign appends the target to one division `(ou, d)`; afterwards it is a member, users are untouched, and a store that listed no member twice still lists none twice |
| AdminUser.UnassignEffect | controllers/admin_user.controller.js:460-494 | a successful unassign removes the target from one division `(ou, d)` listing it; users are untouched, a store that listed no member twice still lists none twice, and with unique keys the target is no longer a member |
| AdminUser.AssignTwice | controllers/admin_user.controller.js:242-246 | repeating a successful assignment is refused as already assigned |
| AdminUser.PushedIsLocated | controllers/admin_user.controller.js:460-476 | when the user was a member of no `(ou, d)` division, after the push the positional `$pull` filter resolves to exactly the division pushed into |
| AdminUser.AssignThenUnassign | controllers/admin_user.controller.js:252-267 | unassigning right after a successful assign restores the store exactly: the target was in no `(ou, d)` division before, so the pull resolves to the division the push wrote |
| NormalUser.ViewCredentials | controllers/normal_user.controller.js:12-121 | viewCredentials: missing caller, role gate, then the grouped pipeline of the caller's divisions; stated by ViewRoleGate, ViewShowsOnlyMemberDivisions, ViewShowsEveryMemberDivision and ViewGroupsByOrgUnit |
| NormalUser.ViewRoleGate | controllers/normal_user.controller.js:28-103 | the listing is given exactly to a caller on record with one of the three roles; a missing caller is a server error |
| NormalUser.ViewShowsOnlyMemberDivisions | controllers/normal_user.controller.js:38-92 | every entry is one org unit under its own id and name, and every division shown lists the caller |
| NormalUser.ViewShowsEveryMemberDivision | controllers/normal_user.controller.js:38-92 | every division listing the caller is shown, inside its own org unit's entry |
| NormalUser.ViewGroupsByOrgUnit | controllers/normal_user.controller.js:75-91 | with distinct org-unit ids, no org unit appears twice; when in addition no division lists a member twice, each division listing the caller appears once |
| NormalUser.AccountExists | controllers/normal_user.controller.js:217-238 | the nested scan finds a match exactly when some row's division holds an account with that name and username |
| NormalUser.AddCredential | controllers/normal_user.controller.js:127-321 | the handler's status and new store are those of `AddCredentialSpec`: role gate, membership gate, duplicate scan, `$push` |
| NormalUser.AddFailureChangesNothing | controllers/normal_user.controller.js:204-303 | every refusal leaves the store as it was |
| NormalUser.AddGates | controllers/normal_user.controller.js:153-208 | a missing caller is a server error, an invalid role is refused, then a caller outside `(ou, d)` is refused exactly when not a member |
| NormalUser.AddDuplicateIff | controllers/normal_user.controller.js:217-243 | past the gates, the addition is refused as a duplicate exactly when a division `(ou, d)` of the caller holds that name and username |
| NormalUser.AddIgnoresPassword | controllers/normal_user.controller.js:234 | the password never decides the outcome |
| NormalUser.AppendAccount | controllers/normal_user.controller.js:249-267 | the `$push` of a credential onto one division's accounts; stated by AddEffect, AddKeepsPairsUnique and AddTwice |
| NormalUser.AddEffect | controllers/normal_user.controller.js:249-267 | a successful addition appends the full credential to one division `(ou, d)` and changes nothing else |
| NormalUser.AddKeepsPairsUnique | controllers/normal_user.controller.js:217-267 | with unique division keys, no division ever holds two accounts with the same name and username |
| NormalUser.AddTwice | controllers/normal_user.controller.js:284-291 | with unique division keys, repeating a successful addition with any password is refused as a duplicate |
| ManagementUser.FirstMatch | controllers/management_user.controller.js:162-168 | the org unit `updateOne` writes: the first named ou having a division d and, for each of the old name, username and password, some account carrying it |
| ManagementUser.NewPairTaken | controllers/management_user.controller.js:125-148 | the nested scan flags a duplicate exactly as the written four-way condition does |
| ManagementUser.UpdateCredential | controllers/management_user.controller.js:12-251 | the handler's status and new store are those of `UpdateCredentialSpec` |
| ManagementUser.EmptyFieldFirst | controllers/management_user.controller.js:40-44 | a blank new field is refused before anything else, whoever asks |
| ManagementUser.UpdateFailureChangesNothing | controllers/management_user.controller.js:113-233 | every refusal leaves the store as it was |
| ManagementUser.UpdateGates | controllers/management_user.controller.js:56-117 | a missing caller is a server error; a role other than management or admin is refused; then a caller outside `(ou, d)` is refused exactly when not a member |
| ManagementUser.UpdateDuplicateIff | controllers/management_user.controller.js:143-144 | past the gates, the duplicate refusal fires exactly when the caller's division holds the new pair and both the name and the username change |
| ManagementUser.RewriteUnit | controllers/management_user.controller.js:170-186 | the `$[]`/`$[acc]` rewrite of every account equal to the old credential in every division of one org unit; stated by RewriteChangesIff and RewriteReachesOtherDivisions |
| ManagementUser.ApplyUpdate | controllers/management_user.controller.js:158-206 | the write and its `modifiedCount` test; stated by NothingUpdatedIff, UpdatePastGates and UpdateEffect |
| ManagementUser.RewriteChangesIff | controllers/management_user.controller.js:172-186 | the `$[]`/`$[acc]` rewrite changes an org unit exactly when it holds an account equal to the old credential and the new credential differs |
| ManagementUser.UpdatePastGates | controllers/management_user.controller.js:113-158 | a caller with the right role in `(ou, d)`, with every new field filled and not refused by the duplicate rule, gets exactly the outcome of the write |
| ManagementUser.NothingUpdatedIff | controllers/management_user.controller.js:194-206 | the write succeeds or answers "nothing updated", and answers it exactly when no org unit matches, the match holds no equal account, or old equals new |
| ManagementUser.UpdateEffect | controllers/management_user.controller.js:158-198 | a successful update rewrites exactly the org unit FirstMatch picks (the first one the filter matches), which is named ou and held the old credential; users are untouched |
| ManagementUser.SingleFieldChangeNeverDuplicate | controllers/management_user.controller.js:143-144 | changing only the name or only the username is never refused as a duplicate |
| ManagementUser.AndRuleAdmitsDuplicate | controllers/management_user.controller.js:143-144 | a concrete store with distinct pairs where the written rule accepts a rename that leaves a division with two accounts mail/c |
| ManagementUser.RewriteReachesOtherDivisions | controllers/management_user.controller.js:172-176 | on the same store, the update also rewrites the account of a division the caller does not belong to |
| ManagementUser.IntendedConfined | controllers/management_user.controller.js:158-188 | the corrected update rewrites only the caller's division `(ou, d)`, which held the old credential |
| ManagementUser.RewriteKeepsPairsUnique | controllers/management_user.controller.js:172-186 | rewriting accounts into a pair the division does not hold keeps its pairs distinct |
| ManagementUser.IntendedKeepsPairsUnique | controllers/management_user.controller.js:143-188 | the corrected update never leaves two accounts of a division with the same name and username |
| ManagementUser.IntendedRefusesExample | controllers/management_user.controller.js:143-144 | the corrected handler refuses the finding's rename as a duplicate |
| Log.GetOrgUnitsAndDivisions | controllers/log.controller.js:13-114 | getOrgUnitsAndDivisions: no role check, a missing caller is a server error, otherwise the caller's profile with the grouped names; stated by ProfileForAnyRole, UnitsSound, UnitsComplete and AllUsersAgreesWithProfile |
| Log.ProfileForAnyRole | controllers/log.controller.js:87-105 | every caller on record gets their profile, whatever the role, with the stored username and role; a missing caller is an error |
| Log.UnitsSound | controllers/log.controller.js:33-83 | each listed org unit is one of the store's under its id and name, carrying the names of the divisions listing the user |
| Log.UnitsComplete | controllers/log.controller.js:33-83 | every division listing the user shows up by name under its org unit, and no org unit is listed twice |
| Log.GetAllUsers | controllers/log.controller.js:120-238 | a missing caller is a bad token; an invalid role is refused; otherwise one profile per user, in directory order, each with its own memberships |
| Log.AllUsersAgreesWithProfile | controllers/log.controller.js:147-212 | the caller's row in the all-users list is the profile the single-user listing answers with |
| LoginRegister.LastClash | controllers/login_register.controller.js:31-42 | the last user whose username equals the given one up to case; absent exactly when none does |
| LoginRegister.FindTakenUsername | controllers/login_register.controller.js:31-42 | the scan reports a clash exactly when one exists, naming the stored username of the last clashing user |
| LoginRegister.RegisterSpec | controllers/login_register.controller.js:11-82 | registration: a case-insensitive clash refuses naming the stored username, otherwise a "normal" user with a fresh id is appended; stated by RegisterKeepsDirectoryValid, RegisterThenLogin and RegisterTwiceRefused |
| LoginRegister.RegisterUser | controllers/login_register.controller.js:11-82 | the handler's status and new store are those of `RegisterSpec`: a clash refuses, otherwise a "normal" user with a fresh id is appended |
| LoginRegister.LoginPayload | controllers/login_register.controller.js:99-115 | the payload of the last user whose username matches up to case and whose digest checks; absent exactly when none does |
| LoginRegister.LoginUser | controllers/login_register.controller.js:87-141 | the scan returns that payload, and refuses with invalid credentials exactly when there is none |
| LoginRegister.LoginIgnoresCase | controllers/login_register.controller.js:110 | usernames equal up to letter case log in alike |
| LoginRegister.RegisterKeepsDirectoryValid | controllers/login_register.controller.js:19-66 | registration keeps ids unique, every role valid (the default "normal"), and usernames distinct up to case |
| LoginRegister.RegisterThenLogin | controllers/login_register.controller.js:11-140 | a freshly registered user can log in under any case of the username; the token carries the new id, the username as registered, and role "normal" |
| LoginRegister.RegisterTwiceRefused | controllers/login_register.controller.js:45-49 | registering any case variant of a registered username is refused, naming the stored username, and nothing changes |

## Left out

- Tokens: signing and verifying JWTs, and the bad-token outcome of a malformed token, are not modelled. The caller arrives as a verified id.
- bcrypt: hashing and salting are outside the model. Registration receives the digest as a parameter, and login receives the password check as a function `verify(password, digest)`.
- Letter case: `toLowerCase` is modelled for ASCII letters only. Unicode case mapping is not modelled.
- HTTP: status codes, message texts and `console.log` are not modelled. Outcomes are a `Status`/`Failure` value. The admin handlers' `res.send(500).send(…)` and `res.send(401).send(…)` calls are modelled as the failure they intend.
- Store failures: a database exception is not modelled. The only server error modelled is a caller missing from the directory.
- Concurrency: each handler is one atomic step. The check-then-write race between the gates and the update is not modelled.
- `$group` order: MongoDB leaves the output order of `$group` unspecified. The model groups in first-appearance order.
- getOrgUnitsAndDivisions: `Log.GetOrgUnitsAndDivisions` puts the caller's id in the profile where the handler uses the id from the token, which is the same id here.
- Duplicate division keys: assign and add push into the first division named `(ou, d)`, which may not be the caller's when two divisions share that key. The properties that depend on this carry `UniqueKeys` as a requirement.
  - AdminUser.PullRemovesMember: requires `UniqueKeys`.
  - AdminUser.UnassignEffect: states that the target is no longer a member only under `UniqueKeys`.
  - NormalUser.AddKeepsPairsUnique: requires `UniqueKeys`.
  - NormalUser.AddTwice: requires `UniqueKeys`.
- Unassign filter: the handler's filter may be met by one division listing the user and another named d. The model resolves the positional `$` to the first division named d that lists the user, within the first org unit having one.
- Database.constructor: it only seeds the two collections from a given store. Its contract is not one of the handler properties.
- Target user ids: the `user_id` of updateRole, assign and unassign is assumed to be a well-formed ObjectId (modelled as an `Id`). A malformed one makes the cast of `{_id: userId}` (controllers/admin_user.controller.js:50-54) or `new mongoose.Types.ObjectId(userId)` (controllers/admin_user.controller.js:221, :426) throw once the gates have passed, and the handler answers with its server-error branch (controllers/admin_user.controller.js:83-88, :289-294, :497-502); the model has no such input, so UpdateRoleSpec, AssignSpec and UnassignSpec never reach that branch.
- Request fields: every field of a request body is assumed to be a present string. The routes do no validation, and the handlers pass the fields straight into query filters (controllers/admin_user.controller.js:161-165, controllers/normal_user.controller.js:183-187, controllers/management_user.controller.js:163-167). A JSON object there becomes a query operator, e.g. `{"$exists": true}` as the org-unit name passes the membership `$match` for a member of any division. That operator injection is not modelled, and neither is the exception a missing field raises (e.g. `toLowerCase` on an absent username). The membership-gate properties (AdminUser.MembershipGateFirst, NormalUser.AddGates, ManagementUser.UpdateGates) hold for string inputs only.
- Routes and the Mongoose schemas beyond the role default are not part of this model.

## Findings

| source | as written | input that shows it | evidently intended | confidence | as-written member | corrected member |
|---|---|---|---|---|---|---|
| controllers/management_user.controller.js:143-144 | the clash counts as a duplicate only if the old name AND the old username both differ from the new ones | division D holds mail/c/p1 and web/c/p2; a management member renames web/c/p2 to mail/c/p3; the username is unchanged, so the rename is accepted and D holds mail/c twice | refuse whenever the name OR the username changes and the new pair is already held, keeping (name, username) unique in a division | not executed | ManagementUser.AndRuleAdmitsDuplicate | ManagementUser.IntendedKeepsPairsUnique |
| controllers/management_user.controller.js:162-176 | the filter's dotted conditions may be met by different divisions, and `divisions.$[]` rewrites matching accounts in every division of the org unit | same store, where division E (no members) also holds web/c/p2; the caller, a member of D only, renames it and E's account changes too | rewrite only the account in the caller's division `(ou, d)` | not executed | ManagementUser.RewriteReachesOtherDivisions | ManagementUser.IntendedConfined |

# Task-management backend: auth store, account use cases and task store

This project models the core of a task-management backend in Dafny. The core has three parts.

**The auth store** (`AuthRepo.AuthRepository`) holds two collections:
- an allow-list of addresses that may register, each with a role and a `hasUser` flag;
- the users, each with a username, a lower-case address, a password hash, a role and an `isConfirmed` flag.

Both collections are maps from id to document. A counter hands out fresh ids. The store's methods change the maps in place. Its find and listing operations are functions that read them.

**The account use cases** are methods over the store:
- registration, confirmation and login (`Registration`);
- the forgotten-password flow and changing a password (`Passwords`);
- renaming, changing a role, deleting, finding and listing users (`UserAdmin`);
- adding, changing, deleting and listing allow-list entries (`AllowList`).

Each use case answers either its result or a rejection that carries the exact message the source uses. The password hasher, the token codec and the mail service are modelled in `AuthServices`. Confirmation and reset tokens are signed with a secret derived from the user's current state: the base secret followed by the printed `isConfirmed` flag, or followed by the stored hash. So a token stops opening once that state changes.

**The task store** (`TaskRepo.TaskRepository`) keeps tasks by id. Its date-range query lists:
1. the tasks that start in the range, by start date descending;
2. then the tasks that end in the range, by end date descending;
3. then removes repeated ids, keeping the first occurrence.

`TaskRepo.DateRangeQuery` is proved equal to "the start matches, then the end matches not already listed". It is also proved to list each task starting or ending in the range exactly once.

**The cross-table invariant.** `AuthRepo.LinkedTables` requires that:
- every allow-list address is lower-case;
- an entry's `hasUser` is set exactly when a user holds its address;
- every user has an entry.

Every use case is proved to preserve this invariant, with one exception: `AllowList.UpdateEmail`, which stores the new address exactly as given.
- It keeps the tables linked when the address is unchanged, and when an entry no user holds moves to a lower-case address.
- It breaks the link whenever it renames an entry that a user holds. The user keeps the old address, which is then no longer on the list. `AuthScenarios.RenamedEntryLocksOut` shows the consequence: that user can no longer log in under either address.
- It also breaks the link whenever the new address contains a capital letter.

A second property of the source is proved as it stands. A confirmation token is signed only with the base secret and the flag "false", and confirmation does not compare the token's payload with the id. So any unconfirmed user's token confirms any other unconfirmed user. `AuthScenarios.TokenConfirmsAnotherAccount` proves this.

Modules:
- `Wrappers`, `Strings`, `Sequences` and `Tables` hold the shared definitions.
- `AuthModels`, `AuthRepo`, `AuthServices`, `AuthMessages` and `AuthInvariants` hold the auth store.
- `Registration`, `Passwords`, `UserAdmin` and `AllowList` hold the use cases.
- `AuthScenarios` holds whole flows.
- `TaskModels`, `TaskRepo` and `TaskSeeds` hold the task store.

## Model

| member | source | states |
|---|---|---|
| AuthModels.NewEmailDoc | src/auth/data/models/email.model.ts:11-13 | A new allow-list document saves exactly when the address and the role are non-empty. It keeps both and starts with `hasUser` false. Otherwise it fails validation. |
| AuthModels.NewUserDoc | src/auth/data/models/user.model.ts:13-28 | A new user document saves exactly when all four strings are non-empty. It stores the address lower-cased, and `isConfirmed` starts false. Otherwise it fails validation. |
| Strings.Lower | src/auth/data/repository/auth.repository.ts:22 | `toLowerCase` keeps the length and leaves no upper-case letter. Each of A-Z becomes the letter 32 code points later (a-z), and every other character is kept. |
| Strings.LowerIdempotent | src/auth/data/repository/auth.repository.ts:83 | Lower-casing an address that is already lower-cased changes nothing. |
| Strings.LowerOfLower | src/auth/data/models/user.model.ts:18 | A string without upper-case letters is its own lower-case form. |
| Strings.StrLeReflexive | src/auth/data/repository/auth.repository.ts:67 | The string order the listings sort by is reflexive. |
| Strings.StrLeTotal | src/auth/data/repository/auth.repository.ts:67 | Any two strings are comparable. |
| Strings.StrLeTransitive | src/auth/data/repository/auth.repository.ts:67 | The string order is transitive. |
| Strings.StrLeAntisymmetric | src/auth/data/repository/auth.repository.ts:155 | Two strings ordered both ways are equal, so the order is total. |
| Tables.Rows | src/task/data/repository/task.repository.ts:106 | A full scan of a collection yields each stored document once, with its key, in ascending key order. |
| Tables.RowsRecords | src/task/data/repository/task.repository.ts:106 | Turning every row of a full scan into a record that carries its key gives one record per stored document, each equal to the stored one, with no key twice. |
| Tables.Lookup | src/auth/data/repository/auth.repository.ts:49-51 | `findOne` finds a key whose document satisfies the filter. It finds nothing only when no document does. |
| Sequences.InsertAscSorted | src/auth/data/repository/auth.repository.ts:67 | Inserting into a list sorted by a string key keeps it sorted. |
| Sequences.SortAsc | src/auth/data/repository/auth.repository.ts:67 | An ascending sort by a string key is a permutation and is sorted. |
| Sequences.InsertDescSorted | src/task/data/repository/task.repository.ts:77 | Inserting into a list sorted descending by a date keeps it sorted. |
| Sequences.SortDesc | src/task/data/repository/task.repository.ts:77 | A descending sort by a date is a permutation and is sorted. |
| Sequences.Filter | src/task/data/repository/task.repository.ts:88 | `filter` keeps exactly the elements that pass the test and never lengthens the list. |
| Sequences.FilterSingleton | src/task/data/repository/task.repository.ts:88 | Filtering a one-element list keeps that element exactly when it passes the test. |
| Sequences.FilterConcat | src/task/data/repository/task.repository.ts:88 | Filtering a concatenation filters each part and concatenates the results. With the singleton case, this fixes the order and the multiplicity of what is kept. |
| Sequences.FilterSortedDesc | src/task/data/repository/task.repository.ts:86-88 | Filtering a descending list leaves it descending. |
| Sequences.FilterDistinctBy | src/task/data/repository/task.repository.ts:88 | Filtering a list in which no key repeats leaves no key repeated. |
| Sequences.PermutationDistinct | src/auth/data/repository/auth.repository.ts:67 | Sorting a list without repetitions leaves none. |
| Sequences.PermutationMembers | src/auth/data/repository/auth.repository.ts:155 | Sorting keeps exactly the same elements. |
| AuthRepo.EmailRecords | src/auth/data/repository/auth.repository.ts:70 | Every stored entry becomes exactly one record with its id, and every record is a stored entry. |
| AuthRepo.EmailListing | src/auth/data/repository/auth.repository.ts:66-71 | The allow-list listing is sorted by address ascending and lists each entry once. It is empty exactly when the allow-list is. |
| AuthRepo.UserRecords | src/auth/data/repository/auth.repository.ts:158-168 | Every stored user becomes exactly one record with its id, and every record is a stored user. |
| AuthRepo.UserListing | src/auth/data/repository/auth.repository.ts:154-169 | The user listing is sorted by username ascending and lists each user once. It is empty exactly when there are no users. |
| AuthRepo.AuthRepository.constructor | src/auth/data/repository/auth.repository.ts:12-15 | A new store is empty, satisfies the unique indexes and is linked. |
| AuthRepo.AuthRepository.AddEmail | src/auth/data/repository/auth.repository.ts:20-28 | Checks run in order: validation, then the unique index. On success it adds the lower-cased address with the role and `hasUser` false, under a fresh id, and answers that id. |
| AuthRepo.AuthRepository.UpdateEmail | src/auth/data/repository/auth.repository.ts:30-34 | Only the unique index can reject it. Otherwise it overwrites the address exactly as given, and the role, keeping `hasUser`. An absent id is a no-op that still answers the id. |
| AuthRepo.AuthRepository.DeleteEmail | src/auth/data/repository/auth.repository.ts:36-40 | Removes the id, if present, and answers it. |
| AuthRepo.AuthRepository.SetEmailHasUser | src/auth/data/repository/auth.repository.ts:42-46 | Overwrites only `hasUser`. An absent id changes nothing. It answers the id. |
| AuthRepo.AuthRepository.FindEmail | src/auth/data/repository/auth.repository.ts:48-55 | Finds an entry exactly when one holds the lower-cased argument, and answers that stored entry. Otherwise it rejects with 'Email not found'. |
| AuthRepo.AuthRepository.FindEmailById | src/auth/data/repository/auth.repository.ts:57-64 | Finds exactly the stored ids. Otherwise it rejects with 'Email not found'. |
| AuthRepo.AuthRepository.GetAllEmails | src/auth/data/repository/auth.repository.ts:66-71 | Lists every entry once, sorted by address ascending. An empty allow-list gives an empty list, not a rejection. |
| AuthRepo.AuthRepository.AddUser | src/auth/data/repository/auth.repository.ts:75-97 | Checks run in order: validation, then the unique address index. On success it stores the username, the lower-cased address, the hash, the role and `isConfirmed` false under a fresh id, and answers that user. |
| AuthRepo.AuthRepository.UpdateUserName | src/auth/data/repository/auth.repository.ts:100-104 | Changes only the username of that user. An absent id is a no-op. It answers the id. |
| AuthRepo.AuthRepository.UpdateUserPassword | src/auth/data/repository/auth.repository.ts:106-110 | Changes only the stored hash. An absent id is a no-op. It answers the id. |
| AuthRepo.AuthRepository.UpdateUserRole | src/auth/data/repository/auth.repository.ts:112-116 | Changes only the role. An absent id is a no-op. It answers the id. |
| AuthRepo.AuthRepository.DeleteUser | src/auth/data/repository/auth.repository.ts:118-122 | Removes the id, if present, and answers it. |
| AuthRepo.AuthRepository.FindUserByEmail | src/auth/data/repository/auth.repository.ts:124-138 | Finds a user exactly when one holds the lower-cased argument, and answers that stored user. Otherwise it rejects with 'User not found'. |
| AuthRepo.AuthRepository.FindUserById | src/auth/data/repository/auth.repository.ts:140-152 | Finds exactly the stored ids. Otherwise it rejects with 'User not found'. |
| AuthRepo.AuthRepository.GetAllUsers | src/auth/data/repository/auth.repository.ts:154-169 | Lists every user once, sorted by username ascending. An empty collection gives an empty list. |
| AuthRepo.AuthRepository.ConfirmUserRegistration | src/auth/data/repository/auth.repository.ts:171-175 | Sets only `isConfirmed`, to true. An absent id is a no-op. It answers the id. |
| AuthServices.IdentityHasher | test/auth/helpers/fake.password.service.ts:8-14 | The hasher the tests substitute for bcrypt accepts a password against the hash of the same password, and of no other. |
| AuthServices.DecodeToken | src/auth/services/token.service.ts:16-23 | Decoding yields the payload exactly when the token was signed with the given secret. Otherwise it yields nothing. |
| AuthServices.EncodeToken | src/auth/services/token.service.ts:7-14 | An encoded token decodes to its payload under its own secret, and under no other secret. |
| AuthServices.ConfirmationSecret | src/auth/usecases/register.usecase.ts:30 | The confirmation secret is the base secret followed by "true" exactly when the profile is confirmed, and by "false" exactly when it is not. |
| AuthServices.ResetSecret | src/auth/usecases/forgot.password.usecase.ts:18 | The reset secret is the base secret followed by the stored hash, and nothing else. |
| AuthServices.ConfirmationSecretChanges | src/auth/usecases/confirm.registration.usecase.ts:13 | The confirmation secrets for an unconfirmed and a confirmed profile differ. |
| AuthServices.ResetSecretInjective | src/auth/usecases/reset.password.usecase.ts:13 | Two reset secrets are equal exactly when the hashes are equal. |
| AuthServices.Outbox.SendConfirmationEmail | src/auth/services/email.service.ts:21-36 | Appends one confirmation message (recipient, id, token) and answers true. |
| AuthServices.Outbox.SendForgotPasswordEmail | src/auth/services/email.service.ts:38-56 | Appends one reset message (recipient, id, token) and answers true. |
| AuthInvariants.AddEntryKeepsLinked | src/auth/usecases/add.email.usecase.ts:8-11 | Adding a new, lower-case, unheld address keeps the tables linked. |
| AuthInvariants.RegisterKeepsLinked | src/auth/usecases/register.usecase.ts:17-27 | Adding a user for an allowed, unheld address and flagging its entry keeps the tables linked. |
| AuthInvariants.UserFieldUpdateKeepsLinked | src/auth/data/repository/auth.repository.ts:100-116 | Rewriting a user without changing its address keeps the tables linked. |
| AuthInvariants.EntryUpdateKeepsLinked | src/auth/usecases/update.user.role.usecase.ts:13-16 | Rewriting an entry's role, keeping its address and flag, keeps the tables linked. |
| AuthInvariants.DeleteUserKeepsLinked | src/auth/usecases/delete.user.usecase.ts:11-17 | Deleting a user and clearing its entry's flag keeps the tables linked. |
| AuthInvariants.DeleteEntryKeepsLinked | src/auth/usecases/delete.email.usecase.ts:11-15 | Deleting an entry that no user holds keeps the tables linked. |
| AuthInvariants.DeleteEntryAndUserKeepsLinked | src/auth/usecases/delete.email.usecase.ts:11-17 | Deleting an entry together with the user holding it keeps the tables linked. |
| AuthInvariants.RenamingFreeEntryKeepsLinked | src/auth/usecases/update.email.usecase.ts:11 | Moving an entry that no user holds to a lower-case address that no other entry holds keeps the tables linked. |
| AuthInvariants.RenamingHeldEntryUnlinks | src/auth/usecases/update.email.usecase.ts:11 | Changing the address of an entry that a user holds always breaks the link. |
| Registration.Register | src/auth/usecases/register.usecase.ts:15-40 | Rejects, leaving store and outbox unchanged, in this order: 'This email is not allowed', then 'User already exists', then a validation failure. On success it adds one unconfirmed user (entry's role, hashed password, lower-cased address), sets the entry's `hasUser`, and mails one confirmation token for the new id under secret+"false". It keeps the tables linked. |
| Registration.ConfirmRegistration | src/auth/usecases/confirm.registration.usecase.ts:8-20 | Rejects with 'User does not exists', then 'Confirmation error' when the token does not open under the secret for the current flag; both leave the store unchanged. Otherwise it sets only that user's `isConfirmed` and answers the id. It keeps the tables linked. |
| Registration.Login | src/auth/usecases/login.usecase.ts:10-23 | Rejects in this order: 'This email is not allowed' without an entry; 'Invalid email or password' without a user or on a wrong password; 'Profile is not confirmed'. Otherwise it answers the id of the user holding the address. It only reads the store. |
| Registration.ConfirmationTokenSingleUse | src/auth/usecases/confirm.registration.usecase.ts:13-15 | A token issued at registration never opens once the profile is confirmed. |
| Passwords.ForgotPassword | src/auth/usecases/forgot.password.usecase.ts:13-29 | Without a user for the address it rejects with 'Invalid email' and sends nothing. Otherwise it mails one reset message carrying the id, signed with the base secret followed by the stored hash, and answers the id. The store is not modified. |
| Passwords.ResetPassword | src/auth/usecases/reset.password.usecase.ts:8-18 | Answers the user's stored address exactly when the id exists and the token opens under the secret for the current hash. Every failure is 'Invalid email'. It only reads the store. |
| Passwords.ResetLinkValidIffHashUnchanged | src/auth/usecases/reset.password.usecase.ts:13-15 | A reset link mailed under some hash opens exactly while that hash is still stored. |
| Passwords.SetNewPassword | src/auth/usecases/set.new.password.usecase.ts:13-34 | Rejects with 'Invalid email' when the link does not open, then 'Passwords must be the same'; both leave the store unchanged. Otherwise it stores the hash of the new password, changes nothing else, and answers the id. It keeps the tables linked. |
| Passwords.UpdateUserPassword | src/auth/usecases/update.user.password.usecase.ts:10-32 | Rejects, with the store unchanged, in order: 'Invalid user id', then 'Invalid old password', then 'Passwords must be the same'. Otherwise it stores the hash of the new password and answers the id. It keeps the tables linked. |
| UserAdmin.UpdateUserName | src/auth/usecases/update.user.name.usecase.ts:5-13 | Rejects an unknown id with 'User does not exist', leaving the store unchanged. Otherwise it renames only that user and answers the id. It keeps the tables linked. |
| UserAdmin.UpdateUserRole | src/auth/usecases/update.user.role.usecase.ts:5-19 | Rejects an unknown id with 'User does not exist'. Otherwise it changes the user's role and, if an entry holds the user's address, that entry's role; nothing else changes. It keeps the tables linked. |
| UserAdmin.DeleteUser | src/auth/usecases/delete.user.usecase.ts:6-20 | Rejects an unknown id with 'User does not exist'. Otherwise it deletes the user and clears the flag on the matching entry. With no matching entry the deletion stands and it rejects with 'Email does not exist'; on linked tables that case cannot arise. It keeps the tables linked. |
| UserAdmin.FindUser | src/auth/usecases/find.user.usecase.ts:7-13 | Answers the user holding the lower-cased address exactly when there is one. Otherwise it rejects with 'User does not exist'. |
| UserAdmin.GetAllUsers | src/auth/usecases/get.all.users.usecase.ts:7-13 | Rejects with 'No users found' exactly when there are no users. Otherwise it lists every user once by username ascending. |
| AllowList.AddEmail | src/auth/usecases/add.email.usecase.ts:6-14 | Rejects with 'Email already exists' when an entry holds the address in lower case. Otherwise it adds exactly one entry (lower-cased address, role, unflagged). Users are unchanged, and the tables stay linked. |
| AllowList.UpdateEmail | src/auth/usecases/update.email.usecase.ts:6-20 | Rejects an unknown id with 'Email does not exist'. Otherwise it overwrites the entry's address (as given) and role, and gives the user holding the old address the new role. It keeps the tables linked when the address is unchanged, or when an unheld entry moves to a lower-case address. It unlinks them whenever a held entry is renamed, and whenever the new address contains a capital letter. |
| AllowList.RoleChangeKeepsUnlinked | src/auth/usecases/update.email.usecase.ts:14-17 | Changing a user's role neither links nor unlinks the tables. |
| AllowList.DeleteEmail | src/auth/usecases/delete.email.usecase.ts:6-20 | Rejects an unknown id with 'Email does not exist'. Otherwise it removes the entry and the user holding its address, and nothing else. It keeps the tables linked. |
| AllowList.GetAllEmails | src/auth/usecases/get.all.emails.usecase.ts:7-13 | Rejects with 'No emails found' exactly when the allow-list is empty. Otherwise it lists every entry once by address ascending. |
| AuthScenarios.RegisterConfirmLogin | src/auth/usecases/login.usecase.ts:12-22 | For every hasher that accepts a password against its own hash: after registering, login answers 'Profile is not confirmed'. After confirming with the mailed token, login answers the id. The same token then fails with 'Confirmation error'. |
| AuthScenarios.RenamedEntryLocksOut | src/auth/usecases/update.email.usecase.ts:11-17 | After a registered user's entry is renamed, login under the old address is 'This email is not allowed' and under the new one 'Invalid email or password'. |
| AuthScenarios.TokenConfirmsAnotherAccount | src/auth/usecases/confirm.registration.usecase.ts:10-17 | The confirmation token mailed to one new user confirms a second new user. |
| AuthScenarios.ResetLinkSpentAfterUse | src/auth/usecases/set.new.password.usecase.ts:20-31 | A reset link opens to the user's address and sets a new password. Afterwards the same link is rejected with 'Invalid email'. |
| TaskModels.NewTaskDoc | src/task/data/models/task.model.ts:15-21 | A new task saves exactly when the name, description and status are non-empty, keeping all seven fields. Otherwise it fails validation. |
| TaskRepo.FindIndex | src/task/data/repository/task.repository.ts:88 | `findIndex` by id answers the first position holding the id, or -1 exactly when none does. |
| TaskRepo.StartsIn | src/task/data/repository/task.repository.ts:75-77 | The start test passes exactly when the start date lies within the range, bounds included. No task passes when the range is reversed. |
| TaskRepo.EndsIn | src/task/data/repository/task.repository.ts:79-81 | The end test passes exactly when the end date lies within the range, bounds included. No task passes when the range is reversed. |
| TaskRepo.KeepFirstInPrefix | src/task/data/repository/task.repository.ts:88 | Keeping each id's first occurrence among the first n elements (all of them for `KeepFirst`) keeps only elements of that prefix. |
| TaskRepo.KeepFirstDistinct | src/task/data/repository/task.repository.ts:88 | That filter leaves no id twice. |
| TaskRepo.KeepFirstComplete | src/task/data/repository/task.repository.ts:88 | That filter keeps the first occurrence of every id the prefix holds. |
| TaskRepo.KeepFirstOfConcat | src/task/data/repository/task.repository.ts:86-88 | Keeping first occurrences of the start matches followed by the end matches gives the start matches, then the end matches whose id is not already listed, in order. |
| TaskRepo.UnlistedFilterDistinctIds | src/task/data/repository/task.repository.ts:86-88 | That merged list has no id twice. |
| TaskRepo.IdSetSize | src/task/data/repository/task.repository.ts:88 | A list without repeated ids has as many ids as elements. |
| TaskRepo.ListingSize | src/task/data/repository/task.repository.ts:90-102 | A listing of stored tasks without repeated ids that holds exactly the tasks of a key set has one element per key. |
| TaskRepo.TaskRecords | src/task/data/repository/task.repository.ts:90-102 | Every stored task becomes exactly one record with its id, and no id repeats. |
| TaskRepo.Matches | src/task/data/repository/task.repository.ts:75-81 | A filtered, sorted query lists every stored task that passes the test, once, sorted descending by the key, and nothing else. |
| TaskRepo.DateRangeQuery | src/task/data/repository/task.repository.ts:74-103 | Rejects with 'No tasks found' exactly when no task starts or ends within the range. Otherwise it answers the start matches followed by the unlisted end matches. That list has no repeated id, holds a task exactly when it starts or ends in the range, and has one element per such task. |
| TaskRepo.RangeEmptiness | src/task/data/repository/task.repository.ts:83-84 | Both match lists are empty exactly when no task starts or ends in the range. |
| TaskRepo.RangeListing | src/task/data/repository/task.repository.ts:86-88 | The merged list holds stored tasks, no id twice, and exactly those starting or ending in the range. |
| TaskRepo.AllTasks | src/task/data/repository/task.repository.ts:105-122 | Rejects with 'No tasks found' exactly when the collection is empty. Otherwise it lists every task once, by start date descending. |
| TaskRepo.SpanningTaskNotListed | src/task/data/repository/task.repository.ts:76-80 | A task whose span strictly contains the range is not listed. |
| TaskRepo.TaskRepository.constructor | src/task/data/repository/task.repository.ts:8-10 | A new store is empty. |
| TaskRepo.TaskRepository.AddTask | src/task/data/repository/task.repository.ts:13-34 | Fails validation without a name, description or status, leaving the collection unchanged. Otherwise it stores all seven fields under a fresh id and answers it. |
| TaskRepo.TaskRepository.UpdateTask | src/task/data/repository/task.repository.ts:36-60 | Overwrites all seven fields of that task. An absent id is a no-op. It answers the id. |
| TaskRepo.TaskRepository.UpdateTaskStatus | src/task/data/repository/task.repository.ts:62-66 | Changes only the status. An absent id is a no-op. It answers the id. |
| TaskRepo.TaskRepository.DeleteTask | src/task/data/repository/task.repository.ts:68-72 | Removes the task, if present, and answers the id. |
| TaskRepo.TaskRepository.GetTasksByDateRange | src/task/data/repository/task.repository.ts:74-103 | On the current collection: rejects exactly when no task starts or ends in the range. Otherwise it lists each such task exactly once. |
| TaskRepo.TaskRepository.GetAllTasks | src/task/data/repository/task.repository.ts:105-122 | On the current collection: rejects exactly when it is empty. Otherwise it lists every task, by start date descending, one per task. |
| TaskSeeds.SeededShape | test/task/helpers/helpers.ts:17-45 | The three seeded tasks have ids 0 to 2 and the seeded dates. |
| TaskSeeds.SeededFirstWeekListsTwo | test/task/data/repository/task.repository.spec.ts:165-169 | On the seeds, a range from 2021-12-01 to 2021-12-07 (or any range from on or before the 1st to between the 7th and the 12th) lists two tasks. |
| TaskSeeds.SeededBeforeDecemberIsEmpty | test/task/data/repository/task.repository.spec.ts:170-174 | On the seeds, any range ending before 2021-12-01 is rejected with 'No tasks found'. |
| TaskSeeds.SeededAllListsThree | test/task/data/repository/task.repository.spec.ts:184-190 | On the seeds, listing all tasks gives three. |

## Left out

- HTTP layer: routers, controllers, request validators and status-code mapping are not modelled. This includes the address format and the six-character password minimum.
- Store interface: `src/auth/domain/repository/auth.repository.contract.ts` is not part of this model. The store is the class itself, because the model has no abstract interfaces.
- Tokens: signatures, the HS256 algorithm, the issuer claim and expiry are not modelled. A token is its payload plus the key it was signed with, and it opens under exactly that key.
- Passwords: bcrypt's random salt is not modelled. The hasher is a fixed pair of functions, `hash` and `compare`, passed to the use cases.
- Mail: delivery, SMTP failures and the link text are not modelled. The outbox only records each message.
- Configuration: the base secret is a parameter of the token use cases, not read from the environment.
- Case folding: only the ASCII letters A-Z are lower-cased; Unicode case mapping is not modelled.
- Malformed ids: Mongo ObjectIds are naturals from a counter. A malformed id such as 'wrongId' cannot be expressed, so its cast error is not modelled.
- Dates: date strings are not parsed. Dates are milliseconds since the epoch, and unparseable dates (the 'wrong date format' case) are not modelled.
- Numbers: the task colour is an unbounded integer; JavaScript's number representation is not modelled.
- Timestamps: the `createdAt`/`updatedAt` fields the schemas add are not modelled.
- Concurrency: every use case is a sequential method, so interleaved requests and the races the unique index guards are not modelled.
- Sort ties: the store's order among documents with equal sort keys is not modelled. The listings are only proved sorted and complete; the model breaks ties by insertion sort over ascending ids.
- Error objects: validation and duplicate-key errors are the strings 'User validation failed', 'Email validation failed', 'Task validation failed' and 'E11000 duplicate key error', not the store's error objects.
- Update validation: updates run no validators, as the store's `updateOne` does by default. Updates can therefore store empty strings, and only the unique index rejects an update.
- Seeded auth data: the auth tests' seeded entries and users (three entries, two users) are not modelled; only the task seeds are.
- UserAdmin.DeleteUser: the 'Email does not exist' branch is stated, but it is proved unreachable only on linked tables. On tables unlinked by `AllowList.UpdateEmail` it can happen, as in the source.

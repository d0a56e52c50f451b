# ContosoDashboard services: a Dafny model

This project models the data-access core of ContosoDashboard, an internal
dashboard for employees, their projects and their notifications. It covers
three services and the authorization table registered at start-up:

- The user service looks users up by id and by email (ignoring case). It creates a user on first sign-in and refreshes the display name on later ones. It edits profile columns and the availability status, and lists a user's department colleagues sorted by display name.
- The project service lists the projects a user manages or belongs to, newest first. It looks a project up by id, creates projects, edits their whitelisted columns, adds a member only when the project exists and the pair is new, and lists a project's members.
- The notification service returns a user's inbox: at most 50 rows, most urgent first, newest first within a priority, optionally unread only. It creates notifications that always start unread, marks one as read, and counts the unread ones.
- Four role policies, each passed by a fixed list of roles.

Each database table is a sequence of rows in store order, so "the first row
that matches" is well defined. Each table also has an identity seed that the
next insert takes as its primary key. Every mutating service operation has two
parts:

- A pure transition function from the old tables to the new tables and the returned value (`Upsert`, `EditProject`, `MarkRead`, ...). The lemmas about these functions carry the properties.
- A method of a service class (`UserService`, `ProjectService`, `NotificationService`). The class keeps the tables in fields, and the method updates them in place. Its `ensures` ties the new fields to the transition function, and it keeps the table invariants `Valid()`.

The read-only queries are functions on table values. The LINQ operators they
use live in module `Query`, and each is specified on its own:

- `FirstOrDefault`/`FindAsync` is `FindIndex`.
- `Where` is `Filter`.
- `Count` is `Count`.
- `OrderBy` is `SortBy`.
- `Take` is a sequence prefix.

## Model

| member | source | states |
|---|---|---|
| Authorization.RequiredRoles | ContosoDashboard/Program.cs:27-30 | the role list each policy registers; its properties are stated by `SatisfiesIffRank`, `AdministratorSatisfiesAll` and `EmployeeSatisfiesOnlyEmployee` |
| Authorization.Satisfies | ContosoDashboard/Program.cs:25-31 | a role passes a policy when the policy lists it; characterised by `SatisfiesIffRank` and `SatisfiesMonotone` |
| Authorization.NamesakeRole | ContosoDashboard/Program.cs:27-30 | every policy is passed by the role it is named after, and that role is the lowest one that passes it |
| Authorization.SatisfiesIffRank | ContosoDashboard/Program.cs:25-31 | a role passes a policy exactly when its tier is at least the policy's tier (Employee < TeamLead < ProjectManager < Administrator) |
| Authorization.AdministratorSatisfiesAll | ContosoDashboard/Program.cs:27-30 | Administrator passes all four policies |
| Authorization.EmployeeSatisfiesOnlyEmployee | ContosoDashboard/Program.cs:27-30 | Employee passes the Employee policy and no other |
| Authorization.SatisfiesMonotone | ContosoDashboard/Program.cs:25-31 | a higher role passes every policy a lower role passes |
| Text.Lower | ContosoDashboard/Services/UserService.cs:34 | lower-casing keeps the length, leaves no capital, and changes only capitals, to their lower-case letter |
| Text.LowerIdempotent | ContosoDashboard/Services/UserService.cs:34 | lower-casing twice is lower-casing once |
| Text.LexLeTotal | ContosoDashboard/Services/UserService.cs:100 | any two display names are comparable |
| Text.LexLeTransitive | ContosoDashboard/Services/UserService.cs:100 | the display-name order is transitive |
| Query.FindIndex | ContosoDashboard/Services/UserService.cs:33-34 | the position found matches and no earlier row matches; there is no position exactly when no row matches |
| Query.FindIndexAppend | ContosoDashboard/Services/UserService.cs:52 | appending a row changes the first match only when there was none, and then only if the new row matches |
| Query.Filter | ContosoDashboard/Services/ProjectService.cs:112 | the kept rows are exactly the matching ones, each as often as stored, and never more rows than the input |
| Query.FilterAppend | ContosoDashboard/Services/ProjectService.cs:102 | filtering a table with one more row keeps that row at the end or drops it |
| Query.Count | ContosoDashboard/Services/NotificationService.cs:63-64 | the count is the number of matching rows |
| Query.CountAppend | ContosoDashboard/Services/NotificationService.cs:44 | one more row adds one to the count when it matches, nothing otherwise |
| Query.CountUpdate | ContosoDashboard/Services/NotificationService.cs:55 | rewriting one row moves the count by the change in that row's match |
| Query.SortBy | ContosoDashboard/Services/UserService.cs:100 | the result is a permutation of the input, sorted whenever the order is a total preorder |
| Query.SortedTake | ContosoDashboard/Services/NotificationService.cs:32-35 | after sorting, a row beyond the first k never ranks strictly ahead of a row among them |
| Users.UserById | ContosoDashboard/Services/UserService.cs:26-29 | the row returned is stored and has the id; there is none exactly when no stored row has it |
| Users.UserByEmail | ContosoDashboard/Services/UserService.cs:31-35 | the row returned has the email up to case and is the first such row in store order; there is none exactly when no row has it |
| Users.NewUser | ContosoDashboard/Services/UserService.cs:43-50 | the row added on a first sign-in; its columns are stated by `UpsertInserts` |
| Users.Upsert | ContosoDashboard/Services/UserService.cs:37-62 | the create-or-update transition; specified by `UpsertInserts`, `UpsertUpdates`, `UpsertThenFind`, `UpsertTwice` and `UpsertKeepsInvariants` |
| Users.UpsertInserts | ContosoDashboard/Services/UserService.cs:41-52 | an unknown email appends exactly one row: the given email and name, role Employee, Available, created now, never logged in, under a fresh id |
| Users.UpsertUpdates | ContosoDashboard/Services/UserService.cs:54-58 | a known email adds no row; the first matching row gets the new name and a last-login stamp, and every other column and row stays |
| Users.UpsertThenFind | ContosoDashboard/Services/UserService.cs:37-62 | after the call, looking the email up finds the very row the call returned |
| Users.UpsertTwice | ContosoDashboard/Services/UserService.cs:37-62 | two calls with one email add at most one row, and the second display name wins |
| Users.UpsertKeepsInvariants | ContosoDashboard/Services/UserService.cs:37-62 | the primary key stays unique, and no second user is ever created for an email (up to case) |
| Users.UpdateProfile | ContosoDashboard/Services/UserService.cs:64-79 | the profile-edit transition; specified by `UpdateProfileMiss`, `UpdateProfileHit` and `UpdateProfileKeepsInvariants` |
| Users.UpdateProfileMiss | ContosoDashboard/Services/UserService.cs:66-67 | an unknown id returns false and changes nothing |
| Users.UpdateProfileHit | ContosoDashboard/Services/UserService.cs:69-78 | a known id returns true and rewrites only that row: its seven profile columns come from the argument, and id, email, role, availability and dates stay |
| Users.UpdateProfileKeepsInvariants | ContosoDashboard/Services/UserService.cs:64-79 | a profile edit keeps the primary key and email uniqueness |
| Users.SetAvailability | ContosoDashboard/Services/UserService.cs:81-90 | the availability transition; specified by `SetAvailabilityMiss`, `SetAvailabilityHit` and `SetAvailabilityKeepsInvariants` |
| Users.SetAvailabilityMiss | ContosoDashboard/Services/UserService.cs:83-84 | an unknown id returns false and changes nothing |
| Users.SetAvailabilityHit | ContosoDashboard/Services/UserService.cs:86-89 | a known id returns true and changes that row's availability and nothing else |
| Users.SetAvailabilityKeepsInvariants | ContosoDashboard/Services/UserService.cs:81-90 | the status change keeps the primary key and email uniqueness |
| Users.ByNameTotalPreorder | ContosoDashboard/Services/UserService.cs:100 | sorting by display name is a total preorder, so the sort's order guarantee applies |
| Users.TeamMembers | ContosoDashboard/Services/UserService.cs:92-102 | an unknown id gives no rows; otherwise every user of the caller's department other than the caller, each as often as stored, sorted by display name |
| Users.UserService.CreateOrUpdateUser | ContosoDashboard/Services/UserService.cs:37-62 | the table and the returned user are those of `Upsert`; the invariants and email uniqueness are kept |
| Users.UserService.UpdateUserProfile | ContosoDashboard/Services/UserService.cs:64-79 | the table and the flag are those of `UpdateProfile`; the invariants are kept |
| Users.UserService.UpdateAvailabilityStatus | ContosoDashboard/Services/UserService.cs:81-90 | the table and the flag are those of `SetAvailability`; the invariants are kept |
| Projects.NewerFirstTotalPreorder | ContosoDashboard/Services/ProjectService.cs:41 | newest-first by creation date is a total preorder |
| Projects.UserProjects | ContosoDashboard/Services/ProjectService.cs:26-45 | a project is returned exactly when it is managed by the user or has a membership row for the user, as often as stored, newest first |
| Projects.UserProjectsOnce | ContosoDashboard/Services/ProjectService.cs:35-36 | with unique project ids, each returned project appears exactly once (union semantics) |
| Projects.ProjectById | ContosoDashboard/Services/ProjectService.cs:47-56 | the project returned is stored and has the id; there is none exactly when no project has it |
| Projects.InsertProject | ContosoDashboard/Services/ProjectService.cs:58-67 | the creation transition, with one clock stamp for each date column; specified by `InsertProjectAdds` and `NewProjectHasNoMembers` |
| Projects.InsertProjectAdds | ContosoDashboard/Services/ProjectService.cs:58-67 | exactly one project is appended under a fresh id, its creation and update dates the first and second clock reading, the other columns the caller's; membership rows do not change and the new project is found by its id |
| Projects.EditProject | ContosoDashboard/Services/ProjectService.cs:69-82 | the edit transition; specified by `EditProjectMiss`, `EditProjectHit` and `EditProjectKeepsInvariants` |
| Projects.EditProjectMiss | ContosoDashboard/Services/ProjectService.cs:71-72 | an unknown id returns false and changes nothing |
| Projects.EditProjectHit | ContosoDashboard/Services/ProjectService.cs:74-81 | a known id rewrites only that project: name, description, status and target date from the argument, updated now, id, manager and creation date kept; membership rows unchanged |
| Projects.EditProjectKeepsInvariants | ContosoDashboard/Services/ProjectService.cs:69-82 | an edit keeps both primary keys and the foreign key from members to projects |
| Projects.InsertMember | ContosoDashboard/Services/ProjectService.cs:84-106 | the guarded membership insert; specified by `InsertMemberRejects`, `InsertMemberAdds`, `InsertMemberKeepsInvariants`, `InsertMemberKeepsPairsUnique` and `InsertMemberTwice` |
| Projects.InsertMemberRejects | ContosoDashboard/Services/ProjectService.cs:86-92 | an unknown project, or a pair that already has a row, returns false and changes nothing |
| Projects.InsertMemberAdds | ContosoDashboard/Services/ProjectService.cs:94-105 | otherwise exactly one membership row is appended, with the pair, the role and now, under a fresh id |
| Projects.InsertMemberKeepsInvariants | ContosoDashboard/Services/ProjectService.cs:84-106 | the insert keeps both primary keys and the foreign key |
| Projects.InsertMemberKeepsPairsUnique | ContosoDashboard/Services/ProjectService.cs:89-92 | the existence check keeps at most one row per (project, user) pair |
| Projects.InsertMemberTwice | ContosoDashboard/Services/ProjectService.cs:84-106 | repeating an identical call returns false and leaves the tables as the first call left them |
| Projects.ProjectMembers | ContosoDashboard/Services/ProjectService.cs:108-114 | the rows returned are exactly the project's membership rows, each as often as stored |
| Projects.NewProjectHasNoMembers | ContosoDashboard/Services/ProjectService.cs:58-67 | a freshly created project is found by id and has no membership rows |
| Projects.FirstMemberOfProject | ContosoDashboard/Services/ProjectService.cs:94-114 | adding a user to a project with no members succeeds, and that project then lists exactly the one new row |
| Projects.ManagerAndMemberSeeProject | ContosoDashboard/Services/ProjectService.cs:26-114 | after creating a project and adding a member, both the manager and the member see it exactly once, and it has exactly one row for the member |
| Projects.ProjectService.CreateProject | ContosoDashboard/Services/ProjectService.cs:58-67 | the tables and the stored project are those of `InsertProject`; the invariants are kept |
| Projects.ProjectService.UpdateProject | ContosoDashboard/Services/ProjectService.cs:69-82 | the tables and the flag are those of `EditProject`; the invariants are kept |
| Projects.ProjectService.AddProjectMember | ContosoDashboard/Services/ProjectService.cs:84-106 | the tables and the flag are those of `InsertMember`; the invariants and pair uniqueness are kept |
| Notifications.AheadTotalPreorder | ContosoDashboard/Services/NotificationService.cs:33-34 | priority descending, then creation date descending, is a total preorder |
| Notifications.NotificationById | ContosoDashboard/Services/NotificationService.cs:52-53 | the row returned is stored and has the id; there is none exactly when no row has it |
| Notifications.Inbox | ContosoDashboard/Services/NotificationService.cs:26-34 | before the cap: exactly the user's rows (unread only when asked), each as often as stored, sorted by priority then date, newest first |
| Notifications.UserNotifications | ContosoDashboard/Services/NotificationService.cs:24-37 | only the user's rows (unread when asked); as many as match, but at most 50; never more copies of a row than stored, and all matches when at most 50 match; sorted by priority, then newest |
| Notifications.OmittedRankNoHigher | ContosoDashboard/Services/NotificationService.cs:32-35 | a matching notification left out by the cap never ranks strictly ahead of a returned one |
| Notifications.UnreadCount | ContosoDashboard/Services/NotificationService.cs:61-65 | the count is the number of the user's unread rows, with no cap (the length of the uncapped unread inbox); it is zero exactly when the user has none, and the capped unread inbox holds min(50, count) rows |
| Notifications.InsertNotification | ContosoDashboard/Services/NotificationService.cs:39-48 | the creation transition; specified by `InsertNotificationAdds` and `InsertNotificationCounts` |
| Notifications.InsertNotificationAdds | ContosoDashboard/Services/NotificationService.cs:39-48 | exactly one row is appended under a fresh id, created now and unread whatever the caller set, with the caller's recipient, content and priority |
| Notifications.InsertNotificationCounts | ContosoDashboard/Services/NotificationService.cs:39-48 | creating a notification raises its recipient's unread count by one and nobody else's |
| Notifications.MarkRead | ContosoDashboard/Services/NotificationService.cs:50-59 | the mark-as-read transition; specified by `MarkReadMiss`, `MarkReadHit`, `MarkReadIdempotent`, `MarkReadCounts` and `MarkReadKeepsInvariants` |
| Notifications.MarkReadMiss | ContosoDashboard/Services/NotificationService.cs:52-53 | an unknown id returns false and changes nothing |
| Notifications.MarkReadHit | ContosoDashboard/Services/NotificationService.cs:55-58 | a known id returns true and sets that row's read flag, changing nothing else |
| Notifications.MarkReadIdempotent | ContosoDashboard/Services/NotificationService.cs:50-59 | marking twice gives the same answer and the same table as marking once |
| Notifications.MarkReadCounts | ContosoDashboard/Services/NotificationService.cs:50-65 | marking an unread notification lowers its recipient's unread count by one; a miss or an already-read row changes no count |
| Notifications.MarkReadKeepsInvariants | ContosoDashboard/Services/NotificationService.cs:50-59 | marking read keeps the primary key |
| Notifications.NotificationService.CreateNotification | ContosoDashboard/Services/NotificationService.cs:39-48 | the table and the stored row are those of `InsertNotification`; the invariants are kept |
| Notifications.NotificationService.MarkAsRead | ContosoDashboard/Services/NotificationService.cs:50-59 | the table and the flag are those of `MarkRead`; the invariants are kept |

## Left out

- Database access, `async`/`await` and `SaveChangesAsync` are not modelled. Each call is one atomic step on in-memory tables, so two concurrent `CreateOrUpdateUserAsync` calls racing past the lookup are outside the model.
- The clock is not modelled. Each reading of `DateTime.UtcNow` is a parameter: `now` where a call reads it once, and `created` and `updated` for the two readings in `CreateProjectAsync`.
- Eager loading (`Include`/`ThenInclude`) is not modelled. `UserProjects`, `ProjectById` and `ProjectMembers` return the rows themselves, without the related manager, tasks, members or users.
- Identity columns are modelled by a per-table seed, and an insert takes the seed as its key.
- Projects.InsertProject: the caller's id is treated as unset. In the source, an entity that arrives with a non-zero key makes the save fail, and the model has no such error path.
- Notifications.InsertNotification: the caller's id is treated as unset, as for `InsertProject`; the failing save for a non-zero key is not modelled.
- Projects.InsertMember: the `Users` table is not part of the project tables, so the foreign key from a membership row to its user is not checked. The insert succeeds for a user id that does not exist, where the source's save throws.
- Projects.InsertProject: for the same reason, a project whose manager id names no user is stored, where the source's save throws.
- Notifications.InsertNotification: likewise, a notification for a recipient that does not exist is stored, where the source's save throws.
- Entity arguments are detached values without navigation collections. Two consequences follow:
  - Users.UpdateProfileHit, Projects.EditProjectHit: the column whitelists hold only for such arguments. If the caller passes back the instance the context already tracks, `SaveChangesAsync` saves every column the caller edited on it, including `Role`, `Email` or `ProjectManagerId`.
  - Projects.InsertProjectAdds: `Add` also inserts every entity reachable from the project, so a project passed with its `ProjectMembers` filled in adds membership rows. The model's promise that membership rows do not change holds only for projects passed without them.
- Text.Lower: folds only the 26 ASCII capitals, not the culture-aware `ToLower` the query is translated to.
- Users.ByName: uses ordinal character order, not the database collation `OrderBy` would use.
- Ties under `OrderBy` are not modelled. The model breaks them by insertion order, and every contract holds for any sorted permutation.
- Equality on nullable columns such as `Department` is `Option` equality, so two users with no department count as colleagues (C# null semantics).
- The entity classes are not part of this model. Enumerations are modelled as follows:
  - project status and priority are ordinals;
  - availability other than `Available` is an opaque code;
  - roles are the four `UserRole` values;
  - notification content is a title and a message.
- Columns the shown code never sets on a new user are not modelled from the entity initialisers. The model gives the language defaults: null strings, false flags, no last login.
- Authorization.Satisfies: the policies are modelled over the role enumeration, not over the role-name strings of the claims principal.
- Program.cs is modelled only for the policy table. Service registration, the middleware pipeline and authentication are left out, and so are the task and dashboard services.

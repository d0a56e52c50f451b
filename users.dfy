/** The user service: identity lookup, upsert on first and returning sign-in,
    profile and availability edits, and the same-department team query, over the
    `Users` table. */
module Users {
  import opened Common
  import opened Text
  import opened Query
  import opened Authorization

  /** `AvailabilityStatus`. Only `Available` is named by the service; the other
      members of the enumeration are only ever copied, so they are kept as codes. */
  datatype AvailabilityStatus = Available | OtherStatus(code: nat)

  /** A row of the `Users` table. Nullable columns are `Option`s. */
  datatype User = User(
    id: int,
    email: string,
    displayName: string,
    role: Role,
    availability: AvailabilityStatus,
    department: Option<string>,
    jobTitle: Option<string>,
    phoneNumber: Option<string>,
    profilePhotoUrl: Option<string>,
    emailNotificationsEnabled: bool,
    inAppNotificationsEnabled: bool,
    createdDate: Timestamp,
    lastLoginDate: Option<Timestamp>)

  /** The table in store order, with the identity seed that the next insert takes. */
  datatype UserTable = UserTable(rows: seq<User>, nextId: int)

  /** The primary-key invariant: ids are unique and below the identity seed. */
  ghost predicate ValidTable(t: UserTable) {
    && (forall i :: 0 <= i < |t.rows| ==> t.rows[i].id < t.nextId)
    && (forall i, j :: 0 <= i < j < |t.rows| ==> t.rows[i].id != t.rows[j].id)
  }

  /** No two users share an email up to case: what lookup-before-insert maintains. */
  ghost predicate EmailsDistinct(rows: seq<User>) {
    forall i, j :: 0 <= i < j < |rows| ==> Lower(rows[i].email) != Lower(rows[j].email)
  }

  function HasId(id: int): User -> bool {
    (u: User) => u.id == id
  }

  function HasEmail(email: string): User -> bool {
    (u: User) => Lower(u.email) == Lower(email)
  }

  /** `GetUserByIdAsync`: the row with primary key `id`, if any. */
  function UserById(rows: seq<User>, id: int): (r: Option<User>)
    ensures r.Some? ==> r.value in rows && r.value.id == id
    ensures r.None? <==> forall u :: u in rows ==> u.id != id
  {
    var k := FindIndex(rows, HasId(id));
    if k.Some? then Some(rows[k.value]) else None
  }

  /** `GetUserByEmailAsync`: the first row, in store order, whose email equals
      `email` ignoring case. */
  function UserByEmail(rows: seq<User>, email: string): (r: Option<User>)
    ensures r.Some? ==> Lower(r.value.email) == Lower(email)
    ensures r.Some? ==> exists i :: 0 <= i < |rows| && rows[i] == r.value &&
                          forall j :: 0 <= j < i ==> Lower(rows[j].email) != Lower(email)
    ensures r.None? <==> forall u :: u in rows ==> Lower(u.email) != Lower(email)
  {
    var k := FindIndex(rows, HasEmail(email));
    if k.Some? then Some(rows[k.value]) else None
  }

  /** The row `CreateOrUpdateUserAsync` adds for a first sign-in. Columns the
      service does not set keep the language defaults (null, false). */
  function NewUser(id: int, email: string, displayName: string, now: Timestamp): User {
    User(id, email, displayName, Employee, Available, None, None, None, None,
         false, false, now, None)
  }

  /** `CreateOrUpdateUserAsync`: the new table and the row returned. */
  function Upsert(t: UserTable, email: string, displayName: string, now: Timestamp): (UserTable, User) {
    match FindIndex(t.rows, HasEmail(email))
    case None =>
      var u := NewUser(t.nextId, email, displayName, now);
      (UserTable(t.rows + [u], t.nextId + 1), u)
    case Some(i) =>
      var u := t.rows[i].(displayName := displayName, lastLoginDate := Some(now));
      (t.(rows := t.rows[i := u]), u)
  }

  /** An email unknown up to case inserts exactly one row, with the defaults. */
  lemma UpsertInserts(t: UserTable, email: string, displayName: string, now: Timestamp)
    requires UserByEmail(t.rows, email).None?
    ensures var (t', u) := Upsert(t, email, displayName, now);
      && t'.rows == t.rows + [u]
      && u.email == email && u.displayName == displayName
      && u.role == Employee && u.availability == Available
      && u.createdDate == now && u.lastLoginDate == None
      && (ValidTable(t) ==> forall v :: v in t.rows ==> v.id != u.id)
  {
  }

  /** A known email inserts nothing: the first matching row gets the new display
      name and a last-login stamp, every other column and every other row stays. */
  lemma UpsertUpdates(t: UserTable, email: string, displayName: string, now: Timestamp)
    requires UserByEmail(t.rows, email).Some?
    ensures var (t', u) := Upsert(t, email, displayName, now);
      var prior := UserByEmail(t.rows, email).value;
      && |t'.rows| == |t.rows| && t'.nextId == t.nextId
      && u == prior.(displayName := displayName, lastLoginDate := Some(now))
      && exists i :: 0 <= i < |t.rows| && t.rows[i] == prior && t'.rows == t.rows[i := u]
  {
    var i := FindIndex(t.rows, HasEmail(email)).value;
    assert t.rows[i] == UserByEmail(t.rows, email).value;
  }

  /** After an upsert the email is found, and it finds the row the upsert returned. */
  lemma {:induction false} UpsertThenFind(t: UserTable, email: string, displayName: string, now: Timestamp)
    ensures var (t', u) := Upsert(t, email, displayName, now);
      UserByEmail(t'.rows, email) == Some(u)
  {
    var (t', u) := Upsert(t, email, displayName, now);
    var p := HasEmail(email);
    match FindIndex(t.rows, p)
    case None =>
      FindIndexAppend(t.rows, u, p);
    case Some(i) =>
      FindIndexSame(t.rows, t'.rows, p);
  }

  /** Two upserts with one email add at most one row, and the second display name wins. */
  lemma {:induction false} UpsertTwice(t: UserTable, email: string, name1: string, name2: string,
                                       now1: Timestamp, now2: Timestamp)
    ensures var t1 := Upsert(t, email, name1, now1).0;
      var (t2, u2) := Upsert(t1, email, name2, now2);
      && |t2.rows| <= |t.rows| + 1
      && |t2.rows| == |t1.rows|
      && u2.displayName == name2
      && UserByEmail(t2.rows, email) == Some(u2)
  {
    var (t1, u1) := Upsert(t, email, name1, now1);
    UpsertThenFind(t, email, name1, now1);
    UpsertThenFind(t1, email, name2, now2);
  }

  /** The upsert keeps the primary key, and never creates a second user for an email. */
  lemma UpsertKeepsInvariants(t: UserTable, email: string, displayName: string, now: Timestamp)
    requires ValidTable(t)
    ensures ValidTable(Upsert(t, email, displayName, now).0)
    ensures EmailsDistinct(t.rows) ==> EmailsDistinct(Upsert(t, email, displayName, now).0.rows)
  {
  }

  /** The seven columns a profile edit may change are taken from `profile`; the
      identity columns (id, email, role, availability, created and last-login
      dates) are those of `existing`. */
  ghost predicate ProfileApplied(updated: User, existing: User, profile: User) {
    && updated.displayName == profile.displayName
    && updated.phoneNumber == profile.phoneNumber
    && updated.department == profile.department
    && updated.jobTitle == profile.jobTitle
    && updated.profilePhotoUrl == profile.profilePhotoUrl
    && updated.emailNotificationsEnabled == profile.emailNotificationsEnabled
    && updated.inAppNotificationsEnabled == profile.inAppNotificationsEnabled
    && updated.id == existing.id
    && updated.email == existing.email
    && updated.role == existing.role
    && updated.availability == existing.availability
    && updated.createdDate == existing.createdDate
    && updated.lastLoginDate == existing.lastLoginDate
  }

  /** `UpdateUserProfileAsync`: the new table and whether the row was found. */
  function UpdateProfile(t: UserTable, profile: User): (UserTable, bool) {
    match FindIndex(t.rows, HasId(profile.id))
    case None => (t, false)
    case Some(i) =>
      var e := t.rows[i];
      var updated := e.(displayName := profile.displayName, phoneNumber := profile.phoneNumber,
                        department := profile.department, jobTitle := profile.jobTitle,
                        profilePhotoUrl := profile.profilePhotoUrl,
                        emailNotificationsEnabled := profile.emailNotificationsEnabled,
                        inAppNotificationsEnabled := profile.inAppNotificationsEnabled);
      (t.(rows := t.rows[i := updated]), true)
  }

  lemma UpdateProfileMiss(t: UserTable, profile: User)
    requires UserById(t.rows, profile.id).None?
    ensures UpdateProfile(t, profile) == (t, false)
  {
  }

  /** A hit rewrites only the found row, and only its seven profile columns. */
  lemma UpdateProfileHit(t: UserTable, profile: User)
    requires UserById(t.rows, profile.id).Some?
    ensures var (t', ok) := UpdateProfile(t, profile);
      var prior := UserById(t.rows, profile.id).value;
      && ok && t'.nextId == t.nextId && |t'.rows| == |t.rows|
      && exists i :: 0 <= i < |t.rows| && t.rows[i] == prior
           && (forall j :: 0 <= j < |t.rows| && j != i ==> t'.rows[j] == t.rows[j])
           && ProfileApplied(t'.rows[i], prior, profile)
  {
    var i := FindIndex(t.rows, HasId(profile.id)).value;
    assert t.rows[i] == UserById(t.rows, profile.id).value;
  }

  /** Profile edits keep the primary key and email uniqueness. */
  lemma UpdateProfileKeepsInvariants(t: UserTable, profile: User)
    requires ValidTable(t)
    ensures ValidTable(UpdateProfile(t, profile).0)
    ensures EmailsDistinct(t.rows) ==> EmailsDistinct(UpdateProfile(t, profile).0.rows)
  {
  }

  /** `UpdateAvailabilityStatusAsync`: the new table and whether the row was found. */
  function SetAvailability(t: UserTable, userId: int, status: AvailabilityStatus): (UserTable, bool) {
    match FindIndex(t.rows, HasId(userId))
    case None => (t, false)
    case Some(i) => (t.(rows := t.rows[i := t.rows[i].(availability := status)]), true)
  }

  lemma SetAvailabilityMiss(t: UserTable, userId: int, status: AvailabilityStatus)
    requires UserById(t.rows, userId).None?
    ensures SetAvailability(t, userId, status) == (t, false)
  {
  }

  /** A hit changes the found row's availability and nothing else. */
  lemma SetAvailabilityHit(t: UserTable, userId: int, status: AvailabilityStatus)
    requires UserById(t.rows, userId).Some?
    ensures var (t', ok) := SetAvailability(t, userId, status);
      var prior := UserById(t.rows, userId).value;
      && ok && t'.nextId == t.nextId
      && exists i :: 0 <= i < |t.rows| && t.rows[i] == prior
           && t'.rows == t.rows[i := prior.(availability := status)]
  {
    var i := FindIndex(t.rows, HasId(userId)).value;
    assert t.rows[i] == UserById(t.rows, userId).value;
  }

  lemma SetAvailabilityKeepsInvariants(t: UserTable, userId: int, status: AvailabilityStatus)
    requires ValidTable(t)
    ensures ValidTable(SetAvailability(t, userId, status).0)
    ensures EmailsDistinct(t.rows) ==> EmailsDistinct(SetAvailability(t, userId, status).0.rows)
  {
  }

  function Teammate(department: Option<string>, userId: int): User -> bool {
    (u: User) => u.department == department && u.id != userId
  }

  /** `OrderBy(u => u.DisplayName)`, with ordinal string order. */
  predicate ByName(a: User, b: User) {
    LexLe(a.displayName, b.displayName)
  }

  lemma ByNameTotalPreorder()
    ensures TotalPreorder(ByName)
  {
    forall a: User, b: User ensures ByName(a, b) || ByName(b, a) {
      LexLeTotal(a.displayName, b.displayName);
    }
    forall a: User, b: User, c: User | ByName(a, b) && ByName(b, c) ensures ByName(a, c) {
      LexLeTransitive(a.displayName, b.displayName, c.displayName);
    }
  }

  /** `GetTeamMembersAsync`: nothing for an unknown id; otherwise every other user
      of the caller's department, each as often as stored, sorted by display name. */
  function TeamMembers(rows: seq<User>, userId: int): (r: seq<User>)
    ensures UserById(rows, userId).None? ==> r == []
    ensures UserById(rows, userId).Some? ==>
              forall u :: multiset(r)[u] ==
                if u.department == UserById(rows, userId).value.department && u.id != userId
                then multiset(rows)[u] else 0
    ensures forall u :: u in r ==> u in rows && u.id != userId
    ensures Sorted(r, ByName)
  {
    match UserById(rows, userId)
    case None => []
    case Some(me) =>
      ByNameTotalPreorder();
      SortBy(Filter(rows, Teammate(me.department, userId)), ByName)
  }

  /** The `Users` table behind the service, updated in place by the three
      mutating operations. */
  class UserService {
    var rows: seq<User>
    var nextId: int

    function Table(): UserTable
      reads this
    {
      UserTable(rows, nextId)
    }

    ghost predicate Valid()
      reads this
    {
      ValidTable(Table())
    }

    constructor ()
      ensures Valid() && rows == []
    {
      rows := [];
      nextId := 1;
    }

    method CreateOrUpdateUser(email: string, displayName: string, now: Timestamp) returns (user: User)
      requires Valid()
      modifies this
      ensures Valid()
      ensures (Table(), user) == Upsert(old(Table()), email, displayName, now)
      ensures old(EmailsDistinct(rows)) ==> EmailsDistinct(rows)
    {
      UpsertKeepsInvariants(Table(), email, displayName, now);
      var found := FindIndex(rows, HasEmail(email));
      if found.None? {
        user := NewUser(nextId, email, displayName, now);
        rows := rows + [user];
        nextId := nextId + 1;
      } else {
        var i := found.value;
        user := rows[i].(displayName := displayName, lastLoginDate := Some(now));
        rows := rows[i := user];
      }
    }

    method UpdateUserProfile(profile: User) returns (ok: bool)
      requires Valid()
      modifies this
      ensures Valid()
      ensures (Table(), ok) == UpdateProfile(old(Table()), profile)
      ensures old(EmailsDistinct(rows)) ==> EmailsDistinct(rows)
    {
      UpdateProfileKeepsInvariants(Table(), profile);
      var found := FindIndex(rows, HasId(profile.id));
      if found.None? {
        return false;
      }
      var i := found.value;
      var e := rows[i];
      rows := rows[i := e.(displayName := profile.displayName, phoneNumber := profile.phoneNumber,
                           department := profile.department, jobTitle := profile.jobTitle,
                           profilePhotoUrl := profile.profilePhotoUrl,
                           emailNotificationsEnabled := profile.emailNotificationsEnabled,
                           inAppNotificationsEnabled := profile.inAppNotificationsEnabled)];
      ok := true;
    }

    method UpdateAvailabilityStatus(userId: int, status: AvailabilityStatus) returns (ok: bool)
      requires Valid()
      modifies this
      ensures Valid()
      ensures (Table(), ok) == SetAvailability(old(Table()), userId, status)
      ensures old(EmailsDistinct(rows)) ==> EmailsDistinct(rows)
    {
      SetAvailabilityKeepsInvariants(Table(), userId, status);
      var found := FindIndex(rows, HasId(userId));
      if found.None? {
        return false;
      }
      var i := found.value;
      rows := rows[i := rows[i].(availability := status)];
      ok := true;
    }
  }
}

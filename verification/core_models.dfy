/**
 * The user layer: the `User` record with its role tag, the role-specific
 * profiles, and the user manager's `create_user` / `create_superuser`.
 *
 * Users and profiles live in a `Directory`, a map-based stand-in for the
 * `User`, `StudentProfile`, `FacultyProfile` and `HODProfile` tables.
 */
module CoreModels {
  import opened Wrappers

  type UserId = nat
  type GroupId = nat

  /** The `user_type` column. The four declared choices, plus any other text:
      the choices are enforced by forms and serializers, not by the database,
      and the views carry an explicit "any other role" branch. */
  datatype UserType = Student | Faculty | Hod | Admin | Unlisted(raw: OtherRole)

  /** The stored texts of the four declared choices. */
  const ChoiceNames: set<string> := {"student", "faculty", "hod", "admin"}

  /** Stored role text that is none of the declared choices. A stored
      `'student'` is always the student role, never an unlisted one. */
  type OtherRole = s: string | s !in ChoiceNames witness ""

  const DefaultUserType: UserType := Student

  /** The stored text of a role. */
  function UserTypeName(t: UserType): string {
    match t
    case Student => "student"
    case Faculty => "faculty"
    case Hod => "hod"
    case Admin => "admin"
    case Unlisted(raw) => raw
  }

  /** Reading a stored `user_type` back: every text is kept, the four choice
      values become the matching role and nothing else does. */
  function ParseUserType(s: string): (t: UserType)
    ensures UserTypeName(t) == s
    ensures !t.Unlisted? <==> s in ChoiceNames
  {
    if s == "student" then Student
    else if s == "faculty" then Faculty
    else if s == "hod" then Hod
    else if s == "admin" then Admin
    else Unlisted(s)
  }

  /** Every role reads back from its stored text. */
  lemma UserTypeRoundTrip(t: UserType)
    ensures ParseUserType(UserTypeName(t)) == t
  {
  }

  /** Each stored text is the text of exactly one role. */
  lemma {:induction false} UserTypeNameInjective(a: UserType, b: UserType)
    requires UserTypeName(a) == UserTypeName(b)
    ensures a == b
  {
    UserTypeRoundTrip(a);
    UserTypeRoundTrip(b);
  }

  /** A user. `username` is removed; the unique email is the login identifier.
      Password hash, names and OTP columns are not modelled. */
  datatype User = User(
    id: UserId,
    email: string,
    userType: UserType,
    isStaff: bool,
    isSuperuser: bool,
    isActive: bool)

  /** A student's profile: the group is nullable (`SET_NULL` when the group goes). */
  datatype StudentProfile = StudentProfile(studentId: string, group: Option<GroupId>, isActive: bool)

  datatype FacultyProfile = FacultyProfile(facultyId: string, department: string, isActive: bool)

  datatype HodProfile = HodProfile(
    facultyId: string,
    department: string,
    responsibleFor: set<GroupId>,
    isActive: bool)

  const DefaultDepartment: string := "Computer Application"

  /** Minimum identifier lengths declared by the `MinLengthValidator`s. */
  const StudentIdMinLength: nat := 5
  const FacultyIdMinLength: nat := 3

  /** The user and profile tables; profiles are keyed by their user (one-to-one primary key). */
  datatype Directory = Directory(
    users: map<UserId, User>,
    students: map<UserId, StudentProfile>,
    faculty: map<UserId, FacultyProfile>,
    hods: map<UserId, HodProfile>,
    nextUserId: UserId)

  /** The database constraints on the directory: keys agree with the stored ids,
      ids come from the auto-increment counter, emails are unique, profiles
      belong to existing users, and each profile table has unique identifiers. */
  ghost predicate Valid(d: Directory) {
    && d.nextUserId > 0
    && (forall id :: id in d.users ==> d.users[id].id == id && 0 < id < d.nextUserId)
    && (forall a, b :: a in d.users && b in d.users && d.users[a].email == d.users[b].email ==> a == b)
    && d.students.Keys <= d.users.Keys
    && d.faculty.Keys <= d.users.Keys
    && d.hods.Keys <= d.users.Keys
    && (forall a, b :: a in d.students && b in d.students && d.students[a].studentId == d.students[b].studentId ==> a == b)
    && (forall a, b :: a in d.faculty && b in d.faculty && d.faculty[a].facultyId == d.faculty[b].facultyId ==> a == b)
    && (forall a, b :: a in d.hods && b in d.hods && d.hods[a].facultyId == d.hods[b].facultyId ==> a == b)
  }

  /** The keyword arguments the manager inspects. A supplied flag that is not
      the Python value `True` is modelled as `false`: the manager only ever
      tests `is not True`. */
  datatype ExtraFields = ExtraFields(
    isStaff: Option<bool>,
    isSuperuser: Option<bool>,
    isActive: Option<bool>,
    userType: Option<UserType>)

  const NoExtraFields: ExtraFields := ExtraFields(None, None, None, None)

  /** The exceptions the manager and the database raise. */
  datatype ModelError = ValueError(message: string) | IntegrityError(message: string)

  const EmailRequiredMessage: string := "The Email field must be set"
  const StaffRequiredMessage: string := "Superuser must have is_staff=True."
  const SuperuserRequiredMessage: string := "Superuser must have is_superuser=True."

  predicate EmailTaken(d: Directory, email: string) {
    exists id :: id in d.users && d.users[id].email == email
  }

  /** `CustomUserManager.create_user`. `normalize` stands for `normalize_email`.
      A missing or empty email raises before anything is written; a normalized
      email already present violates the unique column. Otherwise a new user
      gets the next id and the model defaults for what the caller left out. */
  function CreateUser(d: Directory, email: Option<string>, extra: ExtraFields, normalize: string -> string)
    : (r: Result<(User, Directory), ModelError>)
    ensures (email.None? || email.value == "") ==> r == Failure(ValueError(EmailRequiredMessage))
    ensures email.Some? && email.value != "" ==>
              (r.Failure? <==> EmailTaken(d, normalize(email.value)))
    ensures r.Failure? ==> (r.error.ValueError? <==> (email.None? || email.value == ""))
    ensures r.Success? ==>
              var (u, d') := r.value;
              && u.id == d.nextUserId
              && u.email == normalize(email.value)
              && u.userType == extra.userType.GetOr(DefaultUserType)
              && u.isStaff == extra.isStaff.GetOr(false)
              && u.isSuperuser == extra.isSuperuser.GetOr(false)
              && u.isActive == extra.isActive.GetOr(true)
              && d'.users == d.users[u.id := u]
              && d'.students == d.students && d'.faculty == d.faculty && d'.hods == d.hods
              && d'.nextUserId > u.id
    ensures Valid(d) && r.Success? ==> r.value.0.id !in d.users && Valid(r.value.1)
  {
    if email.None? || email.value == "" then
      Failure(ValueError(EmailRequiredMessage))
    else
      var e := normalize(email.value);
      if EmailTaken(d, e) then
        Failure(IntegrityError("UNIQUE constraint failed: email"))
      else
        var u := User(d.nextUserId, e, extra.userType.GetOr(DefaultUserType),
                      extra.isStaff.GetOr(false), extra.isSuperuser.GetOr(false),
                      extra.isActive.GetOr(true));
        Success((u, d.(users := d.users[u.id := u], nextUserId := d.nextUserId + 1)))
  }

  /** The fields after `create_superuser`'s `setdefault` calls: only the ones
      the caller left out are filled in. */
  function SuperuserDefaults(extra: ExtraFields): (e: ExtraFields)
    ensures extra.isStaff.Some? ==> e.isStaff == extra.isStaff
    ensures extra.isSuperuser.Some? ==> e.isSuperuser == extra.isSuperuser
    ensures extra.isActive.Some? ==> e.isActive == extra.isActive
    ensures extra.userType.Some? ==> e.userType == extra.userType
    ensures e.isStaff.Some? && e.isSuperuser.Some? && e.isActive.Some? && e.userType.Some?
    ensures extra.isStaff.None? ==> e.isStaff == Some(true)
    ensures extra.isSuperuser.None? ==> e.isSuperuser == Some(true)
    ensures extra.isActive.None? ==> e.isActive == Some(true)
    ensures extra.userType.None? ==> e.userType == Some(Admin)
  {
    ExtraFields(
      Some(extra.isStaff.GetOr(true)),
      Some(extra.isSuperuser.GetOr(true)),
      Some(extra.isActive.GetOr(true)),
      Some(extra.userType.GetOr(Admin)))
  }

  /** `CustomUserManager.create_superuser`: fill the defaults, refuse a
      superuser that is not staff, then not superuser, and only then hand over
      to `create_user` (so the flag checks come before the email check). */
  function CreateSuperuser(d: Directory, email: Option<string>, extra: ExtraFields, normalize: string -> string)
    : (r: Result<(User, Directory), ModelError>)
    ensures extra.isStaff == Some(false) ==> r == Failure(ValueError(StaffRequiredMessage))
    ensures extra.isStaff != Some(false) && extra.isSuperuser == Some(false) ==>
              r == Failure(ValueError(SuperuserRequiredMessage))
    ensures extra.isStaff != Some(false) && extra.isSuperuser != Some(false) ==>
              r == CreateUser(d, email, SuperuserDefaults(extra), normalize)
    ensures r.Success? ==>
              var u := r.value.0;
              && u.isStaff && u.isSuperuser
              && u.isActive == extra.isActive.GetOr(true)
              && u.userType == extra.userType.GetOr(Admin)
  {
    var e := SuperuserDefaults(extra);
    assert e.isStaff == Some(true) <==> extra.isStaff != Some(false) by {
      if extra.isStaff.Some? { assert extra.isStaff.value || extra.isStaff == Some(false); }
    }
    assert e.isSuperuser == Some(true) <==> extra.isSuperuser != Some(false) by {
      if extra.isSuperuser.Some? { assert extra.isSuperuser.value || extra.isSuperuser == Some(false); }
    }
    if e.isStaff != Some(true) then Failure(ValueError(StaffRequiredMessage))
    else if e.isSuperuser != Some(true) then Failure(ValueError(SuperuserRequiredMessage))
    else CreateUser(d, email, e, normalize)
  }

  /** The email column is the login identifier: in a valid directory it picks
      out at most one user. */
  function UserByEmail(d: Directory, email: string): (r: Option<UserId>)
    requires Valid(d)
    ensures r.Some? <==> EmailTaken(d, email)
    ensures r.Some? ==> r.value in d.users && d.users[r.value].email == email
  {
    if EmailTaken(d, email) then
      var id :| id in d.users && d.users[id].email == email; Some(id)
    else None
  }

  /** Creating a user with a fresh email succeeds, and logging in with that
      email finds the new user and nobody else. */
  lemma CreatedUserIsFoundByEmail(d: Directory, email: string, extra: ExtraFields, normalize: string -> string)
    requires Valid(d)
    requires email != "" && !EmailTaken(d, normalize(email))
    ensures CreateUser(d, Some(email), extra, normalize).Success?
    ensures var (u, d') := CreateUser(d, Some(email), extra, normalize).value;
            Valid(d') && UserByEmail(d', u.email) == Some(u.id)
  {
    var (u, d') := CreateUser(d, Some(email), extra, normalize).value;
    var r := UserByEmail(d', u.email);
    assert u.id in d'.users && d'.users[u.id].email == u.email;
    assert r.value == u.id;
  }
}

/**
 * The user endpoints this model covers: registration, which creates the user
 * and then the profile that matches the role, with an identifier made of a
 * role prefix and the zero-padded user id; and the current-profile view.
 */
module CoreViews {
  import opened Wrappers
  import opened Http
  import opened CoreModels

  // ----- Zero-padded identifiers ---------------------------------------------

  predicate IsDigit(c: char) {
    '0' <= c <= '9'
  }

  predicate AllDigits(s: string) {
    forall i :: 0 <= i < |s| ==> IsDigit(s[i])
  }

  function DigitChar(d: nat): (c: char)
    requires d < 10
    ensures IsDigit(c)
  {
    ('0' as int + d) as char
  }

  function DigitValue(c: char): (d: nat)
    requires IsDigit(c)
    ensures d < 10
  {
    c as int - '0' as int
  }

  /** The decimal digits of `n`, without leading zeros (`str(n)`). */
  function Digits(n: nat): (s: string)
    ensures |s| >= 1 && AllDigits(s)
    decreases n
  {
    if n < 10 then [DigitChar(n)] else Digits(n / 10) + [DigitChar(n % 10)]
  }

  /** The number a string of decimal digits spells. */
  function ParseDecimal(s: string): nat
    requires AllDigits(s)
  {
    if s == [] then 0 else ParseDecimal(s[..|s| - 1]) * 10 + DigitValue(s[|s| - 1])
  }

  lemma {:induction false} ParseDigits(n: nat)
    ensures ParseDecimal(Digits(n)) == n
    decreases n
  {
    if n >= 10 {
      ParseDigits(n / 10);
      var s := Digits(n);
      assert s[..|s| - 1] == Digits(n / 10);
    }
  }

  function Zeros(k: nat): (s: string)
    ensures |s| == k && AllDigits(s)
    ensures forall i :: 0 <= i < k ==> s[i] == '0'
  {
    if k == 0 then [] else ['0'] + Zeros(k - 1)
  }

  lemma {:induction false} LeadingZerosIgnored(k: nat, s: string)
    requires AllDigits(s)
    ensures ParseDecimal(Zeros(k) + s) == ParseDecimal(s)
    decreases |s|, k
  {
    if s == [] {
      assert Zeros(k) + s == Zeros(k);
      if k > 0 {
        assert Zeros(k)[..k - 1] == Zeros(k - 1) + [];
        LeadingZerosIgnored(k - 1, []);
      }
    } else {
      var t := Zeros(k) + s;
      assert t[..|t| - 1] == Zeros(k) + s[..|s| - 1];
      LeadingZerosIgnored(k, s[..|s| - 1]);
    }
  }

  /** `f"{n:04d}"` for a width of 4: the digits of `n`, left-padded with zeros
      to the width and never cut short. */
  function ZeroPad(n: nat, width: nat): (s: string)
    ensures |s| == if |Digits(n)| < width then width else |Digits(n)|
    ensures AllDigits(s)
    ensures |s| >= |Digits(n)| && s[|s| - |Digits(n)|..] == Digits(n)
    ensures forall i :: 0 <= i < |s| - |Digits(n)| ==> s[i] == '0'
    ensures ParseDecimal(s) == n
  {
    var digits := Digits(n);
    var pad := if |digits| < width then width - |digits| else 0;
    LeadingZerosIgnored(pad, digits);
    ParseDigits(n);
    assert (Zeros(pad) + digits)[pad..] == digits;
    Zeros(pad) + digits
  }

  const StudentPrefix: string := "STU"
  const FacultyPrefix: string := "FAC"
  const HodPrefix: string := "HOD"
  const IdWidth: nat := 4

  /** A generated profile identifier: role prefix and the zero-padded user id. */
  function ProfileId(prefix: string, id: UserId): string {
    prefix + ZeroPad(id, IdWidth)
  }

  /** Reading the user id back out of a generated identifier. */
  lemma ProfileIdDecodes(prefix: string, id: UserId)
    ensures var s := ProfileId(prefix, id);
            |s| >= |prefix| && s[..|prefix|] == prefix
            && AllDigits(s[|prefix|..]) && ParseDecimal(s[|prefix|..]) == id
  {
    var s := ProfileId(prefix, id);
    assert s[|prefix|..] == ZeroPad(id, IdWidth);
  }

  /** Different users never get the same generated identifier. */
  lemma ProfileIdInjective(prefix: string, a: UserId, b: UserId)
    requires ProfileId(prefix, a) == ProfileId(prefix, b)
    ensures a == b
  {
    ProfileIdDecodes(prefix, a);
    ProfileIdDecodes(prefix, b);
  }

  /** Generated identifiers meet the minimum lengths of the profile models. */
  lemma GeneratedIdsLongEnough(id: UserId)
    ensures |ProfileId(StudentPrefix, id)| >= StudentIdMinLength
    ensures |ProfileId(FacultyPrefix, id)| >= FacultyIdMinLength
    ensures |ProfileId(HodPrefix, id)| >= FacultyIdMinLength
  {
  }

  // ----- Registration -------------------------------------------------------

  /** The registration fields this model uses. */
  datatype RegistrationData = RegistrationData(email: string, password: string, userType: Option<UserType>)

  datatype Registered = Registered(userId: UserId, userType: UserType)

  const InvalidDataMessage: string := "invalid registration data"
  const ProfileIntegrityMessage: string := "IntegrityError"

  /** The registration serializer's verdict. It is a model serializer over
      `User`, so the email is required and not blank, its text as typed must
      not already be stored (the unique column), and `user_type`, when given,
      must be one of the declared choices. `fieldsValid` stands for its other
      checks: the email format and college domain, the password length and the
      field lengths. */
  predicate SerializerAccepts(d: Directory, data: RegistrationData, fieldsValid: bool) {
    && fieldsValid
    && data.email != ""
    && !EmailTaken(d, data.email)
    && !(data.userType.Some? && data.userType.value.Unlisted?)
  }

  predicate StudentIdTaken(d: Directory, sid: string) {
    exists u :: u in d.students && d.students[u].studentId == sid
  }

  predicate FacultyIdTaken(d: Directory, fid: string) {
    exists u :: u in d.faculty && d.faculty[u].facultyId == fid
  }

  predicate HodIdTaken(d: Directory, fid: string) {
    exists u :: u in d.hods && d.hods[u].facultyId == fid
  }

  /** The identifier registration would generate for a new user of this role is already in use. */
  predicate GeneratedIdTaken(d: Directory, t: UserType, id: UserId) {
    match t
    case Student => StudentIdTaken(d, ProfileId(StudentPrefix, id))
    case Faculty => FacultyIdTaken(d, ProfileId(FacultyPrefix, id))
    case Hod => HodIdTaken(d, ProfileId(HodPrefix, id))
    case _ => false
  }

  /** The profile row registration creates for a new user, if any. */
  function AddProfile(d: Directory, u: User): Directory {
    match u.userType
    case Student => d.(students := d.students[u.id := StudentProfile(ProfileId(StudentPrefix, u.id), None, true)])
    case Faculty => d.(faculty := d.faculty[u.id := FacultyProfile(ProfileId(FacultyPrefix, u.id), DefaultDepartment, true)])
    case Hod => d.(hods := d.hods[u.id := HodProfile(ProfileId(HodPrefix, u.id), DefaultDepartment, {}, true)])
    case _ => d
  }

  /** `user_registration_view`. A request the serializer refuses is answered
      with 400 and writes nothing. Otherwise `create_user` stores the user with
      the requested role (student when none was given) under the normalized
      email, which the unique column can still refuse when normalization maps
      the typed address onto a stored one. Then the profile of that role is
      created; the two writes are separate, so a profile whose generated
      identifier is taken fails with the user already stored. */
  function Register(d: Directory, data: RegistrationData, fieldsValid: bool, normalize: string -> string)
    : (r: (Response<Registered>, Directory))
    ensures !SerializerAccepts(d, data, fieldsValid) ==> r == (Err(StatusBadRequest, InvalidDataMessage), d)
    ensures r.0.Ok? <==>
              && SerializerAccepts(d, data, fieldsValid) && !EmailTaken(d, normalize(data.email))
              && !GeneratedIdTaken(d, data.userType.GetOr(DefaultUserType), d.nextUserId)
    ensures r.0.Err? ==> r.0.status in {StatusBadRequest, StatusServerError}
    ensures SerializerAccepts(d, data, fieldsValid) && EmailTaken(d, normalize(data.email)) ==>
              r.0.Err? && r.0.status == StatusServerError && r.1 == d
    ensures SerializerAccepts(d, data, fieldsValid) && !EmailTaken(d, normalize(data.email))
            && GeneratedIdTaken(d, data.userType.GetOr(DefaultUserType), d.nextUserId) ==>
              && r.0 == Err(StatusServerError, ProfileIntegrityMessage)
              && d.nextUserId in r.1.users && r.1.users[d.nextUserId].email == normalize(data.email)
              && r.1.students == d.students && r.1.faculty == d.faculty && r.1.hods == d.hods
    ensures r.0.Ok? ==>
              var id := r.0.body.userId;
              var t := data.userType.GetOr(DefaultUserType);
              && r.0.status == StatusCreated
              && id == d.nextUserId
              && r.0.body.userType == t && t in {Student, Faculty, Hod, Admin}
              && id in r.1.users && r.1.users[id].email == normalize(data.email) && r.1.users[id].userType == t
              && r.1.users == d.users[id := r.1.users[id]]
              && (t == Student ==>
                    r.1.students == d.students[id := StudentProfile(StudentPrefix + ZeroPad(id, 4), None, true)]
                    && r.1.faculty == d.faculty && r.1.hods == d.hods)
              && (t == Faculty ==>
                    r.1.faculty == d.faculty[id := FacultyProfile(FacultyPrefix + ZeroPad(id, 4), DefaultDepartment, true)]
                    && r.1.students == d.students && r.1.hods == d.hods)
              && (t == Hod ==>
                    r.1.hods == d.hods[id := HodProfile(HodPrefix + ZeroPad(id, 4), DefaultDepartment, {}, true)]
                    && r.1.students == d.students && r.1.faculty == d.faculty)
              && (t == Admin ==>
                    r.1.students == d.students && r.1.faculty == d.faculty && r.1.hods == d.hods)
    ensures Valid(d) ==> Valid(r.1) && (r.0.Ok? ==> r.0.body.userId !in d.users)
  {
    if !SerializerAccepts(d, data, fieldsValid) then (Err(StatusBadRequest, InvalidDataMessage), d)
    else
      var extra := ExtraFields(None, None, None, Some(data.userType.GetOr(DefaultUserType)));
      match CreateUser(d, Some(data.email), extra, normalize)
      case Failure(e) => (Err(StatusServerError, e.message), d)
      case Success((u, d1)) =>
        if GeneratedIdTaken(d1, u.userType, u.id) then (Err(StatusServerError, ProfileIntegrityMessage), d1)
        else (Ok(StatusCreated, Registered(u.id, u.userType)), AddProfile(d1, u))
  }

  // ----- Current profile ----------------------------------------------------

  /** The `profile` part of the current-profile response. */
  datatype ProfileView =
    | StudentView(student: StudentProfile)
    | FacultyView(faculty: FacultyProfile)
    | HodView(hod: HodProfile)
    | NoProfile

  /** `current_user_profile_view`: the profile of the user's role, 404 when
      that profile is missing, and no profile for admins or any other role. */
  function CurrentProfile(d: Directory, user: User): (r: Response<ProfileView>)
    ensures r.Err? ==> r == Err(StatusNotFound, NotFoundMessage)
    ensures r.Ok? ==> r.status == StatusOk
    ensures user.userType == Student ==>
              if user.id in d.students then r == Ok(StatusOk, StudentView(d.students[user.id])) else r.Err?
    ensures user.userType == Faculty ==>
              if user.id in d.faculty then r == Ok(StatusOk, FacultyView(d.faculty[user.id])) else r.Err?
    ensures user.userType == Hod ==>
              if user.id in d.hods then r == Ok(StatusOk, HodView(d.hods[user.id])) else r.Err?
    ensures user.userType !in {Student, Faculty, Hod} ==> r == Ok(StatusOk, NoProfile)
  {
    match user.userType
    case Student =>
      if user.id in d.students then Ok(StatusOk, StudentView(d.students[user.id]))
      else Err(StatusNotFound, NotFoundMessage)
    case Faculty =>
      if user.id in d.faculty then Ok(StatusOk, FacultyView(d.faculty[user.id]))
      else Err(StatusNotFound, NotFoundMessage)
    case Hod =>
      if user.id in d.hods then Ok(StatusOk, HodView(d.hods[user.id]))
      else Err(StatusNotFound, NotFoundMessage)
    case _ => Ok(StatusOk, NoProfile)
  }

  /** A student whose email, as typed and normalized, is free and whose generated identifier is unused
      registers, and then finds the profile registration created: the
      generated identifier and no group yet. */
  lemma RegisteredStudentSeesOwnProfile(d: Directory, data: RegistrationData, normalize: string -> string)
    requires Valid(d)
    requires data.userType.GetOr(DefaultUserType) == Student
    requires data.email != "" && !EmailTaken(d, data.email) && !EmailTaken(d, normalize(data.email))
    requires !StudentIdTaken(d, ProfileId(StudentPrefix, d.nextUserId))
    ensures var (resp, d') := Register(d, data, true, normalize);
            && resp == Ok(StatusCreated, Registered(d.nextUserId, Student))
            && CurrentProfile(d', d'.users[d.nextUserId])
               == Ok(StatusOk, StudentView(StudentProfile(ProfileId(StudentPrefix, d.nextUserId), None, true)))
  {
  }

  /** An admin whose email, as typed and normalized, is free registers without any profile, and the
      profile view says so rather than failing. */
  lemma RegisteredAdminHasNoProfile(d: Directory, data: RegistrationData, normalize: string -> string)
    requires Valid(d)
    requires data.userType == Some(Admin)
    requires data.email != "" && !EmailTaken(d, data.email) && !EmailTaken(d, normalize(data.email))
    ensures var (resp, d') := Register(d, data, true, normalize);
            && resp == Ok(StatusCreated, Registered(d.nextUserId, Admin))
            && d.nextUserId !in d'.students && d.nextUserId !in d'.faculty && d.nextUserId !in d'.hods
            && CurrentProfile(d', d'.users[d.nextUserId]) == Ok(StatusOk, NoProfile)
  {
  }
}

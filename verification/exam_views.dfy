/**
 * The exam endpoints: which exams a user sees, which attempts a user may
 * fetch, and the attempt lifecycle (start, answer intake, completion).
 *
 * Each endpoint is a pure function of the user directory, the exam store,
 * the requesting user and, where the endpoint reads the clock, `now`. It
 * returns an HTTP-style response; endpoints that write return the new store
 * inside a successful response, so every refusal leaves the store as it was.
 */
module ExamViews {
  import opened Wrappers
  import opened Http
  import CoreModels
  import opened ExamModels

  type User = CoreModels.User
  type Directory = CoreModels.Directory

  const OnlyStudentsMessage: string := "Only students can attempt exams"
  const NotAllowedToTakeMessage: string := "You are not allowed to take this exam"
  const ProfileNotFoundMessage: string := "Student profile not found"
  const NotAvailableMessage: string := "Exam is not available at this time"
  const NotAllowedToSubmitMessage: string := "Not allowed to submit to this attempt"
  const AttemptClosedMessage: string := "Cannot submit answers to a completed attempt"
  const NotAllowedMessage: string := "Not allowed"
  /** The unhandled database error of a second attempt with the same key. */
  const IntegrityErrorMessage: string := "IntegrityError"

  // ----- Durations ---------------------------------------------------------

  const MicrosPerSecond: int := 1000000
  const SecondsPerDay: int := 86400
  const MicrosPerMinute: int := 60 * MicrosPerSecond
  const MicrosPerDay: int := SecondsPerDay * MicrosPerSecond
  const MinutesPerDay: nat := 1440

  /** The `.seconds` attribute of a `timedelta` of `delta` microseconds: only
      the part within one day, after flooring to whole seconds (the day count
      absorbs the rest, and may be negative). */
  function TimedeltaSeconds(delta: int): (r: nat)
    ensures r < SecondsPerDay
  {
    (delta / MicrosPerSecond) % SecondsPerDay
  }

  /** `actual_duration` as the completion endpoint computes it:
      `(end_time - start_time).seconds // 60`. */
  function ElapsedMinutes(start: Instant, end: Instant): (r: nat)
    ensures r < MinutesPerDay
  {
    TimedeltaSeconds(end - start) / 60
  }

  /** Flooring to seconds and then to minutes floors to minutes. */
  lemma FloorTwice(d: nat)
    ensures (d / MicrosPerSecond) / 60 == d / MicrosPerMinute
  {
    var q := d / MicrosPerMinute;
    var rem := d % MicrosPerMinute;
    assert d == q * MicrosPerMinute + rem;
    assert d == (q * 60 + rem / MicrosPerSecond) * MicrosPerSecond + rem % MicrosPerSecond;
    assert d / MicrosPerSecond == q * 60 + rem / MicrosPerSecond;
  }

  /** Within one day, the duration is the elapsed time in whole minutes, floored. */
  lemma {:induction false} ElapsedMinutesWithinADay(start: Instant, end: Instant)
    requires 0 <= end - start < MicrosPerDay
    ensures ElapsedMinutes(start, end) == (end - start) / MicrosPerMinute
  {
    var d := end - start;
    assert d / MicrosPerSecond < SecondsPerDay;
    FloorTwice(d);
  }

  /** Whole days vanish from the duration: completing one day later reports
      the same number of minutes. */
  lemma {:induction false} ElapsedMinutesWrapsDaily(start: Instant, end: Instant)
    ensures ElapsedMinutes(start, end + MicrosPerDay) == ElapsedMinutes(start, end)
  {
    var d := end - start;
    assert (d + MicrosPerDay) / MicrosPerSecond == d / MicrosPerSecond + SecondsPerDay;
  }

  /** An attempt completed a day and five minutes after it started reports five minutes. */
  lemma LongAttemptReportsRemainderOnly(start: Instant)
    ensures ElapsedMinutes(start, start + MicrosPerDay + 5 * MicrosPerMinute) == 5
  {
    ElapsedMinutesWrapsDaily(start, start + 5 * MicrosPerMinute);
    ElapsedMinutesWithinADay(start, start + 5 * MicrosPerMinute);
  }

  /** A completion stamped one microsecond before the start reports a full
      day minus one minute, not a negative duration. */
  lemma EarlierEndReportsNearlyADay(start: Instant)
    ensures ElapsedMinutes(start, start - 1) == MinutesPerDay - 1
  {
    assert (-1) / MicrosPerSecond == -1;
  }

  // ----- Listing ------------------------------------------------------------

  /** The `allowed_groups=<group>` filter. With a group, the exam must allow it;
      with a NULL group the ORM reads the filter as "no allowed groups at all". */
  predicate GroupMatches(allowed: set<GroupId>, group: Option<GroupId>) {
    match group
    case Some(g) => g in allowed
    case None => allowed == {}
  }

  predicate OpenStatus(st: ExamStatus) {
    st == Scheduled || st == Active
  }

  /** The visibility rule, one role at a time. */
  predicate VisibleTo(dir: Directory, user: User, now: Instant, e: Exam) {
    match user.userType
    case Student =>
      && user.id in dir.students
      && GroupMatches(e.allowedGroups, dir.students[user.id].group)
      && OpenStatus(e.status)
      && e.startTime <= now <= e.endTime
    case Faculty => e.createdBy == user.id
    case Hod => e.createdBy == user.id
    case Admin => true
    case Unlisted(_) => false
  }

  /** The ids of the exams `keep` accepts: a queryset `filter`. */
  method FilterExams(exams: map<ExamId, Exam>, keep: Exam -> bool) returns (r: set<ExamId>)
    ensures forall id :: id in r <==> id in exams && keep(exams[id])
  {
    r := {};
    var rest := exams.Keys;
    while rest != {}
      invariant rest <= exams.Keys
      invariant forall id :: id in r <==> id in exams && id !in rest && keep(exams[id])
      decreases |rest|
    {
      var id :| id in rest;
      if keep(exams[id]) {
        r := r + {id};
      }
      rest := rest - {id};
    }
  }

  /** `ExamListView.get_queryset`. */
  method ListExams(dir: Directory, store: ExamStore, user: User, now: Instant) returns (r: set<ExamId>)
    ensures forall id :: id in r <==> id in store.exams && VisibleTo(dir, user, now, store.exams[id])
    ensures user.userType == CoreModels.Student && user.id !in dir.students ==> r == {}
    ensures user.userType == CoreModels.Student && user.id in dir.students ==>
              forall id :: id in r <==>
                && id in store.exams
                && GroupMatches(store.exams[id].allowedGroups, dir.students[user.id].group)
                && store.exams[id].status in {Scheduled, Active}
                && store.exams[id].startTime <= now <= store.exams[id].endTime
    ensures user.userType in {CoreModels.Faculty, CoreModels.Hod} ==>
              forall id :: id in r <==> id in store.exams && store.exams[id].createdBy == user.id
    ensures user.userType == CoreModels.Admin ==> r == store.exams.Keys
    ensures user.userType.Unlisted? ==> r == {}
  {
    match user.userType
    case Student =>
      if user.id !in dir.students {
        r := {};
      } else {
        var group := dir.students[user.id].group;
        r := FilterExams(store.exams, (e: Exam) => GroupMatches(e.allowedGroups, group) && OpenStatus(e.status)
                                           && e.startTime <= now <= e.endTime);
      }
    case Faculty =>
      r := FilterExams(store.exams, (e: Exam) => e.createdBy == user.id);
    case Hod =>
      r := FilterExams(store.exams, (e: Exam) => e.createdBy == user.id);
    case Admin =>
      r := store.exams.Keys;
    case Unlisted(_) =>
      r := {};
  }

  /** A freshly created exam is a draft, so no student sees it. */
  lemma NewExamHiddenFromStudents(dir: Directory, user: User, now: Instant, title: string, description: string,
                                  creator: UserId, groups: set<GroupId>, start: Instant, end: Instant, minutes: nat)
    requires user.userType == CoreModels.Student
    ensures !VisibleTo(dir, user, now, NewExam(title, description, creator, groups, start, end, minutes))
  {
  }

  // ----- Attempt lookup -----------------------------------------------------

  /** `ExamAttemptDetailView`: students look only among their own attempts, so
      somebody else's attempt is simply not found; everyone else sees all. */
  function RetrieveAttempt(store: ExamStore, user: User, id: AttemptId): (r: Response<ExamAttempt>)
    ensures r.Ok? <==> id in store.attempts && (user.userType == CoreModels.Student ==> store.attempts[id].student == user.id)
    ensures r.Ok? ==> r.status == StatusOk && r.body == store.attempts[id]
    ensures r.Err? ==> r == Err(StatusNotFound, NotFoundMessage)
  {
    if id in store.attempts && (user.userType != CoreModels.Student || store.attempts[id].student == user.id) then
      Ok(StatusOk, store.attempts[id])
    else
      Err(StatusNotFound, NotFoundMessage)
  }

  // ----- Starting an attempt ------------------------------------------------

  /** The start endpoint dereferences the student's group without a check: a
      student with a profile but no group would crash it. Callers exclude that. */
  predicate GroupPresentWhenNeeded(dir: Directory, store: ExamStore, user: User, examId: ExamId) {
    user.userType == CoreModels.Student && examId in store.exams && user.id in dir.students ==>
      dir.students[user.id].group.Some?
  }

  /** The student passes the group check of the start endpoint. */
  predicate InAllowedGroup(dir: Directory, e: Exam, user: User)
    requires user.id in dir.students
  {
    var g := dir.students[user.id].group;
    g.Some? && g.value in e.allowedGroups
  }

  predicate InWindow(e: Exam, now: Instant) {
    e.startTime <= now <= e.endTime
  }

  datatype Started = Started(attemptId: AttemptId, durationMinutes: nat)

  /** `start_exam_attempt`: role, then exam lookup, then profile and group,
      then the inclusive time window, then the insert of attempt number 1. */
  function StartAttempt(dir: Directory, store: ExamStore, user: User, examId: ExamId, now: Instant)
    : (r: Response<(Started, ExamStore)>)
    requires GroupPresentWhenNeeded(dir, store, user, examId)
    ensures user.userType != CoreModels.Student ==> r == Err(StatusForbidden, OnlyStudentsMessage)
    ensures user.userType == CoreModels.Student && examId !in store.exams ==> r == Err(StatusNotFound, NotFoundMessage)
    ensures user.userType == CoreModels.Student && examId in store.exams && user.id !in dir.students ==>
              r == Err(StatusNotFound, ProfileNotFoundMessage)
    ensures user.userType == CoreModels.Student && examId in store.exams && user.id in dir.students
            && !InAllowedGroup(dir, store.exams[examId], user) ==>
              r == Err(StatusForbidden, NotAllowedToTakeMessage)
    ensures user.userType == CoreModels.Student && examId in store.exams && user.id in dir.students
            && InAllowedGroup(dir, store.exams[examId], user) && !InWindow(store.exams[examId], now) ==>
              r == Err(StatusBadRequest, NotAvailableMessage)
    ensures r.Ok? <==>
              && user.userType == CoreModels.Student && examId in store.exams && user.id in dir.students
              && InAllowedGroup(dir, store.exams[examId], user) && InWindow(store.exams[examId], now)
              && !HasAttempt(store, (user.id, examId, 1))
    ensures r.Err? && r.status == StatusServerError ==> HasAttempt(store, (user.id, examId, 1))
    ensures && user.userType == CoreModels.Student && examId in store.exams && user.id in dir.students
            && InAllowedGroup(dir, store.exams[examId], user) && InWindow(store.exams[examId], now)
            && HasAttempt(store, (user.id, examId, 1)) ==>
              r == Err(StatusServerError, IntegrityErrorMessage)
    ensures r.Ok? ==>
              var (started, s') := r.body;
              var id := started.attemptId;
              && r.status == StatusOk
              && started.durationMinutes == store.exams[examId].durationMinutes
              && id in s'.attempts
              && s'.attempts == store.attempts[id := s'.attempts[id]]
              && s' == store.(attempts := s'.attempts, nextAttemptId := s'.nextAttemptId)
              && var a := s'.attempts[id];
                 && a.student == user.id && a.exam == examId && a.attemptNumber == 1
                 && a.startTime == now && a.status == InProgress
                 && a.violationCount == 0 && a.screenSwitchCount == 0
                 && a.endTime.None? && a.actualDuration.None? && a.score.None? && a.maxScore.None?
                 && a.reviewedBy.None? && a.reviewedAt.None?
    ensures Valid(store) && r.Ok? ==> r.body.0.attemptId !in store.attempts && Valid(r.body.1)
  {
    if user.userType != CoreModels.Student then Err(StatusForbidden, OnlyStudentsMessage)
    else if examId !in store.exams then Err(StatusNotFound, NotFoundMessage)
    else
      var exam := store.exams[examId];
      if user.id !in dir.students then Err(StatusNotFound, ProfileNotFoundMessage)
      else if dir.students[user.id].group.value !in exam.allowedGroups then
        Err(StatusForbidden, NotAllowedToTakeMessage)
      else if now < exam.startTime || now > exam.endTime then Err(StatusBadRequest, NotAvailableMessage)
      else
        match InsertAttempt(store, NewAttempt(user.id, examId, 1, now))
        case Failure(_) => Err(StatusServerError, IntegrityErrorMessage)
        case Success((id, s')) => Ok(StatusOk, (Started(id, exam.durationMinutes), s'))
  }

  /** Starting the same exam again, at any time in its window, collides with
      the first attempt's (student, exam, 1) key and writes nothing. */
  lemma SecondStartCollides(dir: Directory, store: ExamStore, user: User, examId: ExamId, now: Instant, later: Instant)
    requires GroupPresentWhenNeeded(dir, store, user, examId)
    requires StartAttempt(dir, store, user, examId, now).Ok?
    requires InWindow(store.exams[examId], later)
    ensures var s' := StartAttempt(dir, store, user, examId, now).body.1;
            StartAttempt(dir, s', user, examId, later) == Err(StatusServerError, IntegrityErrorMessage)
  {
    var (started, s') := StartAttempt(dir, store, user, examId, now).body;
    assert AttemptKey(s'.attempts[started.attemptId]) == (user.id, examId, 1);
  }

  /** The exam's own status plays no part in starting: a draft or cancelled
      exam starts exactly when a scheduled one would. */
  lemma StartIgnoresExamStatus(dir: Directory, store: ExamStore, user: User, examId: ExamId, now: Instant,
                               st: ExamStatus)
    requires examId in store.exams
    requires GroupPresentWhenNeeded(dir, store, user, examId)
    ensures var other := store.(exams := store.exams[examId := store.exams[examId].(status := st)]);
            StartAttempt(dir, other, user, examId, now).Ok? == StartAttempt(dir, store, user, examId, now).Ok?
  {
    var other := store.(exams := store.exams[examId := store.exams[examId].(status := st)]);
    assert HasAttempt(other, (user.id, examId, 1)) == HasAttempt(store, (user.id, examId, 1));
  }

  /** Start and listing agree on published exams: an exam a student may start
      and that is scheduled or active is in that student's listing. */
  lemma StartableExamIsListed(dir: Directory, store: ExamStore, user: User, examId: ExamId, now: Instant)
    requires GroupPresentWhenNeeded(dir, store, user, examId)
    requires StartAttempt(dir, store, user, examId, now).Ok?
    requires OpenStatus(store.exams[examId].status)
    ensures VisibleTo(dir, user, now, store.exams[examId])
  {
  }

  // ----- Answer intake ------------------------------------------------------

  /** `submit_answer`: checks ownership for students and that the attempt is
      still in progress, then acknowledges. The payload is not read and
      nothing is stored, which the result type makes plain. */
  function SubmitAnswer(store: ExamStore, user: User, attemptId: AttemptId): (r: Response<AttemptId>)
    ensures attemptId !in store.attempts ==> r == Err(StatusNotFound, NotFoundMessage)
    ensures (attemptId in store.attempts && user.userType == CoreModels.Student
             && store.attempts[attemptId].student != user.id) ==>
              r == Err(StatusForbidden, NotAllowedToSubmitMessage)
    ensures r.Ok? <==>
              && attemptId in store.attempts
              && (user.userType == CoreModels.Student ==> store.attempts[attemptId].student == user.id)
              && store.attempts[attemptId].status == InProgress
    ensures r.Ok? ==> r == Ok(StatusOk, attemptId)
    ensures attemptId in store.attempts
            && (user.userType == CoreModels.Student ==> store.attempts[attemptId].student == user.id)
            && store.attempts[attemptId].status != InProgress ==>
              r == Err(StatusBadRequest, AttemptClosedMessage)
    ensures r.Err? && r.status == StatusBadRequest ==>
              r.message == AttemptClosedMessage && store.attempts[attemptId].status != InProgress
  {
    if attemptId !in store.attempts then Err(StatusNotFound, NotFoundMessage)
    else
      var attempt := store.attempts[attemptId];
      if user.userType == CoreModels.Student && attempt.student != user.id then
        Err(StatusForbidden, NotAllowedToSubmitMessage)
      else if attempt.status != InProgress then Err(StatusBadRequest, AttemptClosedMessage)
      else Ok(StatusOk, attemptId)
  }

  // ----- Completion ---------------------------------------------------------

  datatype Completion = Completion(score: Option<real>, durationMinutes: nat)

  /** `complete_exam_attempt`: only a non-owning student is refused. There is
      no check of the attempt's current status. */
  function CompleteAttempt(store: ExamStore, user: User, attemptId: AttemptId, now: Instant)
    : (r: Response<(Completion, ExamStore)>)
    ensures attemptId !in store.attempts ==> r == Err(StatusNotFound, NotFoundMessage)
    ensures (attemptId in store.attempts && user.userType == CoreModels.Student
             && store.attempts[attemptId].student != user.id) ==> r == Err(StatusForbidden, NotAllowedMessage)
    ensures r.Ok? <==>
              attemptId in store.attempts
              && (user.userType == CoreModels.Student ==> store.attempts[attemptId].student == user.id)
    ensures r.Ok? ==>
              var (done, s') := r.body;
              var a := store.attempts[attemptId];
              && r.status == StatusOk
              && s'.attempts.Keys == store.attempts.Keys
              && (forall id :: id in store.attempts && id != attemptId ==> s'.attempts[id] == store.attempts[id])
              && s'.exams == store.exams && s'.questions == store.questions
              && s'.choices == store.choices && s'.answers == store.answers
              && s'.nextAttemptId == store.nextAttemptId && s'.nextAnswerId == store.nextAnswerId
              && var a' := s'.attempts[attemptId];
              && a'.status == Submitted
              && a'.endTime == Some(now)
              && a'.actualDuration == Some(ElapsedMinutes(a.startTime, now))
              && a'.(status := a.status, endTime := a.endTime, actualDuration := a.actualDuration) == a
              && done == Completion(a.score, ElapsedMinutes(a.startTime, now))
    ensures Valid(store) && r.Ok? ==> Valid(r.body.1)
  {
    if attemptId !in store.attempts then Err(StatusNotFound, NotFoundMessage)
    else
      var attempt := store.attempts[attemptId];
      if user.userType == CoreModels.Student && attempt.student != user.id then
        Err(StatusForbidden, NotAllowedMessage)
      else
        var endTime := now;
        var done := attempt.(status := Submitted, endTime := Some(endTime),
                             actualDuration := Some(ElapsedMinutes(attempt.startTime, endTime)));
        var s' := store.(attempts := store.attempts[attemptId := done]);
        SameKeyUpdateKeepsValid(store, attemptId, done);
        Ok(StatusOk, (Completion(done.score, done.actualDuration.value), s'))
  }

  /** Completing an attempt that is already over is accepted again: the end
      time is re-stamped and the duration recomputed from the original start. */
  lemma RecompletionRestamps(store: ExamStore, user: User, attemptId: AttemptId, first: Instant, second: Instant)
    requires CompleteAttempt(store, user, attemptId, first).Ok?
    ensures var s1 := CompleteAttempt(store, user, attemptId, first).body.1;
            var r := CompleteAttempt(s1, user, attemptId, second);
            && r.Ok?
            && r.body.1.attempts[attemptId].status == Submitted
            && r.body.1.attempts[attemptId].endTime == Some(second)
            && r.body.1.attempts[attemptId].actualDuration
               == Some(ElapsedMinutes(store.attempts[attemptId].startTime, second))
  {
  }

  /** Every status, terminal ones included, is overwritten by completion. */
  lemma CompletionOverridesAnyStatus(store: ExamStore, user: User, attemptId: AttemptId, now: Instant)
    requires attemptId in store.attempts && store.attempts[attemptId].student == user.id
    ensures CompleteAttempt(store, user, attemptId, now).Ok?
    ensures CompleteAttempt(store, user, attemptId, now).body.1.attempts[attemptId].status == Submitted
  {
  }

  // ----- The lifecycle end to end ------------------------------------------

  /** After a successful start the student can fetch the new attempt and hand
      in answers; after completing it, answers are refused. */
  lemma StartSubmitComplete(dir: Directory, store: ExamStore, user: User, examId: ExamId, now: Instant, later: Instant)
    requires Valid(store)
    requires GroupPresentWhenNeeded(dir, store, user, examId)
    requires StartAttempt(dir, store, user, examId, now).Ok?
    ensures var (started, s1) := StartAttempt(dir, store, user, examId, now).body;
            && RetrieveAttempt(s1, user, started.attemptId) == Ok(StatusOk, NewAttempt(user.id, examId, 1, now))
            && SubmitAnswer(s1, user, started.attemptId) == Ok(StatusOk, started.attemptId)
            && var s2 := CompleteAttempt(s1, user, started.attemptId, later).body.1;
               SubmitAnswer(s2, user, started.attemptId) == Err(StatusBadRequest, AttemptClosedMessage)
  {
  }
}

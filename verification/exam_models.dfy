/**
 * The exam catalogue and attempt records: `Exam`, `Question`, `Option`,
 * `ExamAttempt` and `Answer`, their closed status and type enums, their
 * defaults, and the two `unique_together` constraints, kept in an
 * `ExamStore` of maps from ids to records.
 */
module ExamModels {
  import opened Wrappers
  import CoreModels

  type UserId = CoreModels.UserId
  type GroupId = CoreModels.GroupId
  type ExamId = nat
  type QuestionId = nat
  type OptionId = nat
  type AttemptId = nat
  type AnswerId = nat

  /** A point in time, in microseconds since the epoch (the precision of a
      `DateTimeField`). */
  type Instant = int

  datatype ExamStatus = Draft | Scheduled | Active | Completed | Cancelled
  datatype QuestionType = Mcq | Coding | Descriptive | FileUpload
  datatype AttemptStatus = InProgress | Submitted | TimedOut | Violation

  const DefaultExamStatus: ExamStatus := Draft
  const DefaultMaxAttempts: nat := 1
  const DefaultQuestionPoints: nat := 1
  const DefaultAttemptStatus: AttemptStatus := InProgress
  const DefaultAttemptNumber: nat := 1

  /** An exam. The creator is meant to be faculty, HOD or admin; that choice
      limit applies to forms only. */
  datatype Exam = Exam(
    title: string,
    description: string,
    createdBy: UserId,
    allowedGroups: set<GroupId>,
    startTime: Instant,
    endTime: Instant,
    durationMinutes: nat,
    maxAttempts: nat,
    shuffleQuestions: bool,
    showResultsAfter: bool,
    isProctored: bool,
    status: ExamStatus)

  /** A question; `testCases` is an uninterpreted JSON payload. */
  datatype Question = Question(
    exam: ExamId,
    text: string,
    questionType: QuestionType,
    points: nat,
    order: nat,
    codeTemplate: string,
    testCases: Option<string>)

  /** An answer option of a multiple-choice question. */
  datatype Choice = Choice(question: QuestionId, text: string, isCorrect: bool, order: nat)

  /** One student's attempt at one exam. `score` is an opaque nullable float
      that no operation of this model computes. */
  datatype ExamAttempt = ExamAttempt(
    student: UserId,
    exam: ExamId,
    attemptNumber: nat,
    startTime: Instant,
    endTime: Option<Instant>,
    actualDuration: Option<nat>,
    violationCount: nat,
    screenSwitchCount: nat,
    status: AttemptStatus,
    score: Option<real>,
    maxScore: Option<nat>,
    reviewedBy: Option<UserId>,
    reviewedAt: Option<Instant>)

  /** An answer to one question within one attempt; the file is an opaque reference. */
  datatype Answer = Answer(
    attempt: AttemptId,
    question: QuestionId,
    mcqAnswer: Option<OptionId>,
    descriptiveAnswer: string,
    codeAnswer: string,
    fileAnswer: Option<string>,
    isCorrect: Option<bool>,
    pointsAwarded: Option<real>,
    feedback: string,
    submittedAt: Instant)

  /** The exam tables, with the next value of each auto-increment counter that
      the model writes to. */
  datatype ExamStore = ExamStore(
    exams: map<ExamId, Exam>,
    questions: map<QuestionId, Question>,
    choices: map<OptionId, Choice>,
    attempts: map<AttemptId, ExamAttempt>,
    answers: map<AnswerId, Answer>,
    nextAttemptId: AttemptId,
    nextAnswerId: AnswerId)

  /** A new exam with the model's defaults: draft, one attempt, not shuffled,
      results hidden, proctored. */
  function NewExam(title: string, description: string, createdBy: UserId, allowedGroups: set<GroupId>,
                   startTime: Instant, endTime: Instant, durationMinutes: nat): Exam
  {
    Exam(title, description, createdBy, allowedGroups, startTime, endTime, durationMinutes,
         DefaultMaxAttempts, false, false, true, DefaultExamStatus)
  }

  /** A new question with the model's defaults: one point, order 0, no template, no test cases. */
  function NewQuestion(exam: ExamId, text: string, questionType: QuestionType): Question {
    Question(exam, text, questionType, DefaultQuestionPoints, 0, "", None)
  }

  /** The row `ExamAttempt.objects.create(student=…, exam=…, attempt_number=…)`
      writes at time `now`: every other column at its default. */
  function NewAttempt(student: UserId, exam: ExamId, attemptNumber: nat, now: Instant): ExamAttempt {
    ExamAttempt(student, exam, attemptNumber, now, None, None, 0, 0, DefaultAttemptStatus,
                None, None, None, None)
  }

  /** The columns of the attempt uniqueness constraint. */
  function AttemptKey(a: ExamAttempt): (UserId, ExamId, nat) {
    (a.student, a.exam, a.attemptNumber)
  }

  /** The columns of the answer uniqueness constraint. */
  function AnswerKey(a: Answer): (AttemptId, QuestionId) {
    (a.attempt, a.question)
  }

  ghost predicate UniqueAttempts(s: ExamStore) {
    forall i, j :: i in s.attempts && j in s.attempts && i != j ==>
      AttemptKey(s.attempts[i]) != AttemptKey(s.attempts[j])
  }

  ghost predicate UniqueAnswers(s: ExamStore) {
    forall i, j :: i in s.answers && j in s.answers && i != j ==>
      AnswerKey(s.answers[i]) != AnswerKey(s.answers[j])
  }

  /** The store's invariants: both uniqueness constraints, and counters ahead of every id in use. */
  ghost predicate Valid(s: ExamStore) {
    && UniqueAttempts(s)
    && UniqueAnswers(s)
    && (forall id :: id in s.attempts ==> id < s.nextAttemptId)
    && (forall id :: id in s.answers ==> id < s.nextAnswerId)
  }

  predicate HasAttempt(s: ExamStore, key: (UserId, ExamId, nat)) {
    exists id :: id in s.attempts && AttemptKey(s.attempts[id]) == key
  }

  predicate HasAnswer(s: ExamStore, key: (AttemptId, QuestionId)) {
    exists id :: id in s.answers && AnswerKey(s.answers[id]) == key
  }

  /** The database refuses a row that repeats a unique key. */
  datatype DbError = IntegrityError

  /** Inserting an attempt: refused when its (student, exam, attempt number)
      is taken, otherwise stored under the next id with nothing else touched. */
  function InsertAttempt(s: ExamStore, a: ExamAttempt): (r: Result<(AttemptId, ExamStore), DbError>)
    ensures r.Failure? <==> HasAttempt(s, AttemptKey(a))
    ensures r.Success? ==>
              var (id, s') := r.value;
              && id == s.nextAttemptId
              && s'.attempts == s.attempts[id := a]
              && s' == s.(attempts := s'.attempts, nextAttemptId := s'.nextAttemptId)
    ensures Valid(s) && r.Success? ==> r.value.0 !in s.attempts && Valid(r.value.1)
  {
    if HasAttempt(s, AttemptKey(a)) then Failure(IntegrityError)
    else
      var id := s.nextAttemptId;
      Success((id, s.(attempts := s.attempts[id := a], nextAttemptId := id + 1)))
  }

  /** Inserting an answer: refused when its (attempt, question) already has
      one, otherwise stored under the next id with nothing else touched. */
  function InsertAnswer(s: ExamStore, a: Answer): (r: Result<(AnswerId, ExamStore), DbError>)
    ensures r.Failure? <==> HasAnswer(s, AnswerKey(a))
    ensures r.Success? ==>
              var (id, s') := r.value;
              && id == s.nextAnswerId
              && s'.answers == s.answers[id := a]
              && s' == s.(answers := s'.answers, nextAnswerId := s'.nextAnswerId)
    ensures Valid(s) && r.Success? ==> r.value.0 !in s.answers && Valid(r.value.1)
  {
    if HasAnswer(s, AnswerKey(a)) then Failure(IntegrityError)
    else
      var id := s.nextAnswerId;
      Success((id, s.(answers := s.answers[id := a], nextAnswerId := id + 1)))
  }

  /** Re-submitting an answer for the same question of the same attempt is
      refused rather than overwriting the first one. */
  lemma SecondAnswerRefused(s: ExamStore, a: Answer, b: Answer)
    requires InsertAnswer(s, a).Success?
    requires AnswerKey(b) == AnswerKey(a)
    ensures InsertAnswer(InsertAnswer(s, a).value.1, b) == Failure(IntegrityError)
  {
    var (id, s') := InsertAnswer(s, a).value;
    assert id in s'.answers && AnswerKey(s'.answers[id]) == AnswerKey(b);
  }

  /** Replacing one attempt by another with the same uniqueness key keeps the
      store valid. */
  lemma SameKeyUpdateKeepsValid(s: ExamStore, id: AttemptId, a: ExamAttempt)
    requires id in s.attempts
    requires AttemptKey(a) == AttemptKey(s.attempts[id])
    ensures Valid(s) ==> Valid(s.(attempts := s.attempts[id := a]))
  {
  }

  /** Rewriting attempts in place, without touching their uniqueness keys,
      keeps the store valid. */
  lemma KeyPreservingUpdateKeepsValid(s: ExamStore, attempts: map<AttemptId, ExamAttempt>)
    requires attempts.Keys == s.attempts.Keys
    requires forall id :: id in attempts ==> AttemptKey(attempts[id]) == AttemptKey(s.attempts[id])
    ensures Valid(s) ==> Valid(s.(attempts := attempts))
  {
  }

  /** The questions of an exam (`exam.questions`). */
  function QuestionsOf(s: ExamStore, exam: ExamId): set<QuestionId> {
    set q | q in s.questions && s.questions[q].exam == exam
  }

  /** The options of a question (`question.options`). */
  function ChoicesOf(s: ExamStore, question: QuestionId): set<OptionId> {
    set o | o in s.choices && s.choices[o].question == question
  }
}

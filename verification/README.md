# Exam platform: attempt lifecycle and eligibility, in Dafny

This project models the core of a Django exam platform for a college. It covers:

- **who sees which exam**: the role-based exam listing;
- **starting an attempt**: role, group and time-window gating, then the insert of attempt number 1;
- **answer intake**: the ownership and in-progress gate;
- **completion**: status, end time and the duration in minutes, including the once-a-day wrap of `timedelta.seconds`;
- **attempt lookup** per role;
- **the reviewer bulk action** `mark_as_reviewed` and the two computed admin columns;
- **the store**: exams, questions, options, attempts and answers, with their closed enums, defaults and both `unique_together` constraints;
- **user-layer rules**: the college-domain email check, `create_user` / `create_superuser`, and registration with its role-to-profile dispatch and zero-padded profile ids, plus the current-profile view.

Every operation is a pure function or method over immutable records kept in maps from ids to rows:

- `CoreModels.Directory` holds users and profiles;
- `ExamModels.ExamStore` holds the exam tables.

Views return `Http.Response`, either `Ok(status, body)` or `Err(status, message)`, with the status codes the views use. A refused request returns no store, so nothing changes. The one exception is registration: if the generated profile id is already taken, the answer is 500 but the user row has already been written. The current time `now` is a parameter, an integer number of microseconds.

Modules, one per file:

- `Wrappers`, `Http`: the result types;
- `CoreModels` (core/models.py): users, profiles, manager methods, and the directory invariant `Valid`;
- `CollegeEmail` (core/validators.py): the domain pattern as text, a small compiler to literal atoms, a `re.search` model, and the validator;
- `CoreViews` (core/views.py): registration and the current-profile view;
- `ExamModels` (exams/models.py): records, enums, defaults, the store, and the uniqueness invariant `Valid`;
- `Ordering`: the `order`-field ordering of questions and options;
- `ExamViews` (exams/views.py);
- `ExamAdmin` (exams/admin.py).

Three behaviours of the code worth knowing:

- **Students with no group.** In the listing, a student whose profile has no group is matched by `allowed_groups=None`. The ORM reads that filter as "exams with no allowed groups", so such a student sees open exams that allow no group at all, not nothing. This is `ExamViews.GroupMatches`.
- **Another student's attempt.** A student asking for another student's attempt gets 404 Not Found, not 403 Forbidden. The lookup queryset is filtered to the student's own attempts.
- **No scoring, attempt limit or answer storage.** The code computes no score, does not enforce `max_attempts` and never stores an answer: answer intake only acknowledges. Starting always uses attempt number 1, so a second start hits the uniqueness constraint. That `IntegrityError` is unhandled and is modelled as HTTP 500.

## Model

| member | source | states |
|---|---|---|
| CoreModels.ParseUserType | core/models.py:31-50 | The stored role text maps to one of the four declared roles exactly when it is one of their four names; any other text is kept as an unlisted role and spelled back unchanged |
| CoreModels.UserTypeRoundTrip | core/models.py:31-50 | Every role survives being written as its stored text and read back |
| CoreModels.UserTypeNameInjective | core/models.py:31-50 | Each stored text is the text of exactly one role, so a stored `'student'` is always the student role |
| CoreModels.CreateUser | core/models.py:8-15 | A missing or empty email raises ValueError and writes nothing. Otherwise the normalized email is stored and the unique email column refuses an address already in use. The new user gets the next id, the student role by default and the caller's flags, and the directory invariants are kept |
| CoreModels.SuperuserDefaults | core/models.py:17-21 | Staff, superuser and active default to true and the role to admin, but only where the caller gave no value |
| CoreModels.CreateSuperuser | core/models.py:17-28 | An explicit is_staff other than true fails first, and then an explicit is_superuser other than true fails. Otherwise the result is a staff superuser created through create_user, whose role is the caller's role if given and admin if not |
| CoreModels.UserByEmail | core/models.py:39-41 | Because emails are unique, an email identifies at most one user, and the lookup finds it exactly when it is taken |
| CoreModels.CreatedUserIsFoundByEmail | core/models.py:8-15 | Creating a user with a non-empty email whose normalized form is free succeeds, and the login identifier (the normalized email) then finds exactly that user |
| CollegeEmail.Escape | core/validators.py:14 | The escaped domain is never shorter than the domain, leaves a domain without dots unchanged, and adds nothing but backslashes |
| CollegeEmail.EscapeCompilesToLiteral | core/validators.py:14 | Escaping every dot of a plain domain gives a pattern that matches the domain's characters literally, dots only as dots |
| CollegeEmail.NewValidator | core/validators.py:11-15 | The validator's pattern is "@" plus the domain, matched literally and anchored at the end, with jainuniversity.ac.in as the default domain |
| CollegeEmail.SearchFrom | core/validators.py:23 | The search succeeds exactly when the pattern matches at some position from the given one to the end of the value |
| CollegeEmail.AnchoredLiteralSearch | core/validators.py:23 | An end-anchored literal pattern is found exactly when the value ends with it, ignoring case, possibly before one final newline |
| CollegeEmail.Validate | core/validators.py:17-28 | A base-format failure is reported first with the base error. Otherwise the value is accepted exactly when the domain pattern is found, and a domain failure carries code invalid_college_domain |
| CollegeEmail.AcceptedIffDomainSuffix | core/validators.py:19-23 | A value that passes base validation is accepted exactly when it ends with "@" plus the domain, compared case-insensitively (or does so before one final newline, as `$` allows) |
| CollegeEmail.DefaultDomainIsPlain | core/validators.py:11 | The default domain is one whose pattern is an exact literal |
| CollegeEmail.CaseIsIgnored | core/validators.py:23 | An address whose domain is spelled in any letter case is accepted |
| CollegeEmail.DotsMatchOnlyDots | core/validators.py:14 | Replacing a dot of the domain by any other character (a newline aside) gets the address rejected with the domain error |
| CollegeEmail.SubdomainRejected | core/validators.py:14 | Because the "@" is part of the required suffix, an address at a longer host name that merely ends with the domain is rejected |
| CollegeEmail.CustomDomainReportsDefault | core/validators.py:24-28 | Whatever domain the validator was built for, an address it refuses (here, one whose last letter differs from the domain's) is reported with @jainuniversity.ac.in, the default domain |
| CoreViews.ZeroPad | core/views.py:26 | The id is padded with leading zeros to at least the given width (four in registration), is never cut short, and reads back as the same number |
| CoreViews.ParseDigits | core/views.py:26 | The decimal digits of a number read back as that number |
| CoreViews.ProfileIdDecodes | core/views.py:26-30 | A generated profile id is the role prefix followed by digits that read back as the user id |
| CoreViews.ProfileIdInjective | core/views.py:26-30 | Two users never receive the same generated profile id for the same prefix |
| CoreViews.GeneratedIdsLongEnough | core/views.py:26-30 | STU, FAC and HOD ids always meet the minimum lengths of the profile models (5 for students, 3 for faculty and HOD) |
| CoreViews.Register | core/views.py:19-37 | The serializer refuses, with 400 and nothing written, an empty email, an email already stored exactly as typed, or a role outside the four declared choices. A request it accepts whose normalized email is already stored fails with 500 and nothing written. A taken generated profile id fails with 500 after the user row is already stored, with no profile. Success gives 201 with the new user's id and a declared role (student by default) and adds the matching profile with the generated id: STU with no group, or FAC/HOD in the default department; an admin gets no profile. The directory invariants are kept |
| CoreViews.CurrentProfile | core/views.py:63-85 | Students, faculty and HODs get their own profile, or 404 when it is missing. Admins and unlisted roles get no profile and no error |
| CoreViews.RegisteredStudentSeesOwnProfile | core/views.py:25-26 | A student whose non-empty email is free both as typed and normalized, and whose generated id is unused registers with 201, and the profile view then shows the profile registration created, with the STU id and no group |
| CoreViews.RegisteredAdminHasNoProfile | core/views.py:82-83 | An admin whose non-empty email is free both as typed and normalized registers with 201 and gets no profile in any table, and the profile view answers with no profile rather than 404 |
| Ordering.SortBy | exams/models.py:64-65 | Questions (and options) listed by `order` come out ascending in that field and are a permutation of the input |
| ExamModels.InsertAttempt | exams/models.py:114-115 | A new attempt is refused exactly when its (student, exam, attempt number) is taken. Otherwise it is stored under a fresh id with nothing else changed, and uniqueness is kept |
| ExamModels.InsertAnswer | exams/models.py:138-139 | A new answer is refused exactly when its (attempt, question) already has one. Otherwise it is stored under a fresh id with nothing else changed, and uniqueness is kept |
| ExamModels.SecondAnswerRefused | exams/models.py:138-139 | A second answer to the same question of the same attempt is refused, not merged |
| ExamModels.SameKeyUpdateKeepsValid | exams/models.py:114-115 | Rewriting an attempt without changing its uniqueness key keeps the store invariants |
| ExamModels.KeyPreservingUpdateKeepsValid | exams/models.py:114-115 | A bulk rewrite of attempts that changes no uniqueness key keeps the store invariants |
| ExamViews.TimedeltaSeconds | exams/views.py:117 | The seconds part of a time difference is a whole number of seconds from 0 to 86399, whatever the sign or size of the difference |
| ExamViews.ElapsedMinutes | exams/views.py:117 | The recorded duration is always under 1440 minutes, whatever the start and end times |
| ExamViews.ElapsedMinutesWithinADay | exams/views.py:117 | The recorded duration equals the true elapsed whole minutes when the attempt took less than a day |
| ExamViews.ElapsedMinutesWrapsDaily | exams/views.py:117 | An attempt one day longer records the same duration: whole days are dropped |
| ExamViews.LongAttemptReportsRemainderOnly | exams/views.py:117 | An attempt completed a day and five minutes after its start records 5 minutes |
| ExamViews.EarlierEndReportsNearlyADay | exams/views.py:117 | An end time one microsecond before the start records 1439 minutes, not a negative duration |
| ExamViews.FilterExams | exams/views.py:22-27 | The result holds exactly the exams the filter accepts |
| ExamViews.ListExams | exams/views.py:15-37 | A student with a profile sees exactly the exams that match their group and are scheduled or active with now inside [start, end]. A student without a profile sees none. Faculty and HODs see exactly the exams they created, admins see all, and any other role sees none |
| ExamViews.NewExamHiddenFromStudents | exams/views.py:19-27 | An exam created with the defaults is a draft, so no student lists it |
| ExamViews.RetrieveAttempt | exams/views.py:44-54 | A student retrieves only their own attempts, and another student's attempt is not found. Every other role retrieves any attempt |
| ExamViews.StartAttempt | exams/views.py:59-86 | The checks run in order: non-students get 403, an unknown exam 404, a missing profile 404, a group not allowed 403, and now outside the inclusive window 400. Otherwise exactly one attempt is added, number 1 for the caller, started now, in progress, with zero counters and null results, and the exam's duration is returned, with every other table and counter unchanged. When all checks pass, a taken (caller, exam, 1) key gives 500, and 500 happens only then |
| ExamViews.SecondStartCollides | exams/views.py:76-80 | Starting the same exam a second time within its window collides with the first attempt's key and writes nothing |
| ExamViews.StartIgnoresExamStatus | exams/views.py:59-80 | Whether a start succeeds does not depend on the exam's status, draft and cancelled included |
| ExamViews.StartableExamIsListed | exams/views.py:65-74 | An exam a student may start and that is scheduled or active appears in that student's listing |
| ExamViews.SubmitAnswer | exams/views.py:91-104 | An unknown attempt gives 404 and another student's attempt 403. Otherwise the submission is acknowledged exactly when the attempt is in progress, and a closed attempt gives 400. No answer is stored |
| ExamViews.CompleteAttempt | exams/views.py:109-124 | Only a missing attempt (404) or another student's attempt (403) is refused. Otherwise the attempt becomes submitted, is stamped with now and gets the within-day elapsed minutes. Its other fields, score included, every other attempt and the rest of the store are unchanged, and the store invariants hold |
| ExamViews.RecompletionRestamps | exams/views.py:112-118 | Completing an already completed attempt succeeds again, re-stamps the end time and recomputes the duration from the original start |
| ExamViews.CompletionOverridesAnyStatus | exams/views.py:112-115 | Completion by the owner succeeds from every status, timed out and violation included, and leaves the attempt submitted |
| ExamViews.StartSubmitComplete | exams/views.py:76-118 | After a start, the student retrieves the fresh attempt and may submit answers. After completion, answers are refused with 400 |
| ExamAdmin.MarkAsReviewed | exams/admin.py:51-53 | Every selected attempt becomes submitted and reviewed by the acting user, with all its other fields (reviewed_at and score included) unchanged. Unselected attempts and the rest of the store are unchanged, the reported count is the selection size, and the store invariants hold |
| ExamAdmin.MarkAsReviewedIdempotent | exams/admin.py:52 | Applying the action twice with the same reviewer gives the same state as applying it once |
| ExamAdmin.ReviewedAttemptTakesNoAnswers | exams/admin.py:52 | A reviewed attempt no longer accepts answers |
| ExamAdmin.CountWhere | exams/admin.py:14 | The count is the number of rows the condition accepts |
| ExamAdmin.QuestionsCount | exams/admin.py:13-14 | The column shows the number of questions that belong to the exam |
| ExamAdmin.OptionsCount | exams/admin.py:26-29 | A multiple-choice question shows its number of options, and every other type shows N/A |

## Left out

- Login, logout, sessions, password hashing and OTP fields (core/views.py:40-58): these are thin wrappers over the framework's authentication. The password is carried in the registration data but not used.
- CoreViews.Register: the serializer's empty-email, exact-email uniqueness and role-choice checks are modelled; its other checks (email format and college domain, a password of at least 8 characters, field lengths) are folded into the `fieldsValid` parameter. Listing and attempt serialization are not modelled.
- The base email format rules of the framework's `EmailValidator` are the `baseAccepts` parameter of `CollegeEmail.Validate`, and `normalize_email` is the `normalize` parameter of `CoreModels.CreateUser`.
- CollegeEmail.NewValidator: it requires a domain of letters, digits, dots and hyphens. A custom domain with other regular-expression metacharacters is not modelled.
- CollegeEmail.Validate: case is ignored for ASCII letters only. Unicode case folding is not modelled.
- Clock: `timezone.now()` is the `now` parameter. On start, the attempt's `auto_now_add` start time is taken to be the same instant the window check uses.
- Storage: ORM persistence, transactions and races between concurrent requests are not modelled. The store is a set of maps that keeps the uniqueness constraints.
- ExamViews.ListExams: the result is a set of ids, so the `-created_at` ordering of exams and the exam serializer are not modelled.
- ExamViews.StartAttempt: it requires that a student with a profile has a group. With a null group the code dereferences `None` and crashes with an unhandled error, and that crash is not modelled.
- Exam detail (`ExamDetailView`) is a plain retrieval of any exam by any signed-in user, and is not modelled separately.
- Scores and points are nullable floats that no code computes. They are kept as opaque `Option<real>` values, and no grading is invented.
- Answer files and question test cases are opaque payloads.
- Creation timestamps (`created_at`, `updated_at`, `submitted_at` as auto fields) and `reviewed_at` are kept only where an operation reads or writes them.
- Admin list displays, filters, search fields and URL routing are configuration, not logic.
- Student groups' names and descriptions are not modelled: groups are plain ids.

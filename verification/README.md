# LearnFlow storage layer in Dafny

LearnFlow is a small learning-management web application. All its data is
kept in the browser's `localStorage`, and six modules under `src/lib/` own
that data:

- the user store keeps users and login sessions;
- the course store keeps courses and their join codes;
- the schedule store keeps class sessions;
- the announcement store keeps course announcements;
- the assignment store keeps assignments;
- the submission store keeps students' answers to assignments.

Each store keeps one collection as a whole value under a fixed key. Every
operation reads the whole collection, transforms it, and writes the whole
collection back.

This project models those stores as pure functions over immutable values.
A store is a sequence of records; the user store adds a map of login
sessions. Every operation returns `Step(next, out)`: the state written back
and the value handed to the caller. Operations that throw in the original
return `Failure(message)` with the original's message. The clock, generated
ids and session ids are parameters. `Math.random()` is a caller-supplied
draw `num / den` in [0, 1).

Module layout:

- `Outcomes` holds `Option`, `Result`, `Step` and the object-spread rule
  `Pick`.
- `Seqs` holds the array operations the stores use: `find`, `findIndex`,
  `filter`, "update the first match" and "remove every match".
- `Sorting` holds the stable newest-first sort used by two listings.
- `Text` holds `toLowerCase`, `toUpperCase`, `trim` and `includes`.
- One module per store, each with a companion `...Properties` module for
  lemmas that relate several calls.
- `Scenario` follows the steps of an end-to-end use: two registrations, a
  course and an enrolment in one lemma; then an assignment, a submission and
  its grading, stated for any course and student id, so they cover the ones
  the enrolment produces.

Store invariants proved:

- Users' emails stay distinct up to case under `createUser` and
  `deleteUser`.
- Course codes stay well formed and pairwise distinct, and no course lists
  a student twice, under `createCourse` and `joinCourseByCode`.
- Every update touches only the first record with the given id, and every
  delete removes all records with it. Ids are not assumed unique.

Two facts about the code are worth stating on their own:

- The join-code alphabet at `src/lib/courseStorage.ts:17` has 30 symbols
  (`CourseStorage.AlphabetFacts`).
- `updateUser` (`src/lib/userStorage.ts:85-95`) never re-checks email
  uniqueness. `UserStorageProperties.UpdateUserCanDuplicateEmail` shows a
  store that gains a duplicate email through an update.

## Model

| member | source | states |
|---|---|---|
| Outcomes.Pick | src/lib/userStorage.ts:91 | one property of a spread: the update's value when the update carries the property, the old value otherwise |
| Seqs.FindIndex | src/lib/userStorage.ts:87 | `findIndex`: none iff no element satisfies the test; otherwise the reported index satisfies it and no earlier one does |
| Seqs.Find | src/lib/userStorage.ts:81 | `find`: null iff no element matches; otherwise the value is the element at the first matching index |
| Seqs.Any | src/lib/userStorage.ts:41 | `some`: true iff some element passes the test |
| Seqs.Filter | src/lib/userStorage.ts:100 | `filter` never lengthens the collection; what it keeps is stated by `Seqs.FilterFacts` |
| Seqs.FilterFacts | src/lib/announcementStorage.ts:45 | `filter` keeps an element iff it passes, with the same multiplicity, as an order-preserving subsequence |
| Seqs.FilterKeepsLength | src/lib/userStorage.ts:100-102 | the filtered array is as long as the original iff every element passes |
| Seqs.FirstIndexOf | src/lib/assignmentStorage.ts:28 | `findIndex(x => x.id === id)`: the first position holding the id, none iff no record has it |
| Seqs.UpdateFirst | src/lib/assignmentStorage.ts:27-33 | no match: the collection is returned unchanged with the not-found failure; a match: only the first matching index is replaced by the changed record, the length and every other index unchanged |
| Seqs.RemoveAll | src/lib/scheduleStorage.ts:49-52 | drops exactly the records with the id, keeps the rest with their multiplicities and order, and is the identity when no record has the id |
| Seqs.RemoveAllIdempotent | src/lib/scheduleStorage.ts:49-52 | after removal no record has the id, and removing again changes nothing |
| Seqs.SubsequenceKeepsDistinct | src/lib/userStorage.ts:100 | a filtered subsequence of a collection with distinct keys has distinct keys |
| Sorting.SortNewestFirst | src/lib/announcementStorage.ts:15 | the listing sort: the result is a permutation of its input with creation times non-increasing |
| Sorting.SortIsStable | src/lib/assignmentStorage.ts:15 | records with equal creation time keep their input order (ES2019 `sort` is stable) |
| Text.Lower | src/lib/userStorage.ts:41 | `toLowerCase` keeps the length and maps each character to its lower-case form |
| Text.Upper | src/lib/courseStorage.ts:55 | `toUpperCase` keeps the length and maps each character to its upper-case form |
| Text.UpperCharKeepsBlank | src/lib/courseStorage.ts:54-55 | upper-casing a character neither creates nor removes a blank |
| Text.UpperHasNoLower | src/lib/courseStorage.ts:55 | `toUpperCase` leaves no lower-case letter in the string |
| Text.UpperOfUpper | src/lib/courseStorage.ts:55 | a string without lower-case letters is its own upper-case form |
| Text.UpperOfLower | src/lib/courseStorage.ts:54-55 | upper-casing a lower-cased string gives the upper-cased original |
| Text.Trim | src/lib/courseStorage.ts:54 | `trim` returns a middle slice whose removed ends are all whitespace or line terminators and whose own ends are not |
| Text.TrimUpperCommute | src/lib/courseStorage.ts:54-55 | trimming then upper-casing gives the same string as upper-casing then trimming, for every string |
| Text.TrimPadded | src/lib/courseStorage.ts:54 | any whitespace padding around a value with non-blank ends is removed exactly |
| Text.Contains | src/lib/userStorage.ts:119-123 | `includes` is true iff the needle occurs at some position of the haystack |
| Text.ContainsEmpty | src/lib/userStorage.ts:117-123 | every string includes the empty query |
| UserStorage.GetAllUsers | src/lib/userStorage.ts:8-31 | an absent users key is seeded with exactly the default administrator, and that list is written; a present key is returned as stored; nothing else changes |
| UserStorageProperties.ClearThenRead | src/lib/userStorage.ts:164-168 | after clearing, the next read yields only the administrator with id "1", email admin@learnflow.com and role admin |
| UserStorageProperties.ReadIsStable | src/lib/userStorage.ts:8-31 | seeding happens once: a later read returns the same list and writes nothing more |
| UserStorageProperties.SeededEmailsUnique | src/lib/userStorage.ts:8-31 | reading preserves pairwise case-insensitive email distinctness, the seeded list included |
| UserStorage.IsEmailTaken | src/lib/userStorage.ts:39-42 | true iff some stored user's email equals the given one after lower-casing both |
| UserStorage.CreateUser | src/lib/userStorage.ts:45-63 | fails with "Email already registered" iff the email is taken up to case, writing only the seeding read; otherwise appends exactly the registration data with the supplied id and time, earlier records unchanged and in order |
| UserStorageProperties.CreateUserKeepsEmailsUnique | src/lib/userStorage.ts:45-63 | creation preserves pairwise case-insensitive email distinctness |
| UserStorageProperties.SecondRegistrationRejected | src/lib/userStorage.ts:45-51 | a second registration with the same email in any case fails with "Email already registered" and changes nothing |
| UserStorage.ValidateCredentials | src/lib/userStorage.ts:66-76 | null iff no user matches email up to case, password exactly and role exactly; otherwise the first such user |
| UserStorage.GetUserById | src/lib/userStorage.ts:79-82 | null iff no user has the id; otherwise the first user with it |
| UserStorageProperties.RegisteredUserCanLogIn | src/lib/userStorage.ts:45-76 | a user who has just registered logs in with the same email, password and role and is the user found |
| UserStorageProperties.RegisteredUserFoundById | src/lib/userStorage.ts:45-82 | a user registered under an unused id is the one looked up by that id |
| UserStorage.UpdateUser | src/lib/userStorage.ts:85-95 | null and no write beyond seeding iff no user has the id; otherwise only the first matching index is replaced by the merge with updates winning |
| UserStorage.MergeUser | src/lib/userStorage.ts:91 | `{ ...user, ...updates }`: every property the update carries wins, every other keeps the user's value |
| UserStorageProperties.MergeUserIdempotent | src/lib/userStorage.ts:91 | applying the same update twice is applying it once |
| UserStorageProperties.EmptyPatchIsIdentity | src/lib/userStorage.ts:91 | an update carrying no property leaves the user as it was |
| UserStorageProperties.UpdateUserCanDuplicateEmail | src/lib/userStorage.ts:85-95 | an update can give a user another user's email in a different case; the store then holds a duplicate |
| UserStorage.DeleteUser | src/lib/userStorage.ts:98-106 | true iff some user had the id; true removes every such user and keeps the rest in order; false writes nothing beyond seeding |
| UserStorageProperties.DeleteUserKeepsEmailsUnique | src/lib/userStorage.ts:98-106 | deletion preserves pairwise case-insensitive email distinctness |
| UserStorage.GetUsersByRole | src/lib/userStorage.ts:109-112 | exactly the users whose role name equals the query, in storage order |
| UserStorage.SearchUsers | src/lib/userStorage.ts:115-124 | exactly the users whose lower-cased name, email or department contains the lower-cased query, in storage order |
| UserStorageProperties.EmptySearchKeepsEveryone | src/lib/userStorage.ts:115-124 | an empty query returns every user in storage order |
| UserStorage.CreateAuthSession | src/lib/userStorage.ts:127-139 | records the user's id under the session id, created now and expiring 86,400,000 ms later; other sessions and the users are untouched |
| UserStorage.ValidateSession | src/lib/userStorage.ts:141-155 | unknown id: null with no write; strictly past expiry: the entry is deleted and null returned; otherwise the answer of getUserById |
| UserStorageProperties.SessionValidWithinLifetime | src/lib/userStorage.ts:147-154 | a session is honoured up to and including its expiry instant |
| UserStorageProperties.SessionExpires | src/lib/userStorage.ts:147-152 | one millisecond past its lifetime a session is refused and purged |
| UserStorageProperties.DeletedUserSessionRefused | src/lib/userStorage.ts:154 | a live session whose user was deleted validates to null |
| UserStorage.RemoveSession | src/lib/userStorage.ts:157-161 | deletes exactly that session key and keeps the other sessions and the users |
| UserStorageProperties.RemovedSessionRefused | src/lib/userStorage.ts:143-145 | a removed session validates to null |
| UserStorageProperties.RemoveSessionIdempotent | src/lib/userStorage.ts:157-161 | removing a session twice is removing it once |
| UserStorage.ClearAllData | src/lib/userStorage.ts:164-168 | users, sessions and the cached user are all absent afterwards |
| CourseStorage.AlphabetIndex | src/lib/courseStorage.ts:19 | `Math.floor(Math.random() * 30)` is a valid index into the alphabet |
| CourseStorage.Spell | src/lib/courseStorage.ts:18-19 | one alphabet symbol per draw, in draw order, the code as long as the draws |
| CourseStorage.AlphabetFacts | src/lib/courseStorage.ts:16-17 | the alphabet has 30 symbols, all upper-case letters or digits 2-9 |
| CourseStorage.AlphabetComplete | src/lib/courseStorage.ts:16-17 | every upper-case letter except I, L, O, Y and every digit 2-9 is in the alphabet |
| CourseStorage.AlphabetDistinct | src/lib/courseStorage.ts:17 | no symbol occurs twice in the alphabet |
| CourseStorage.CodeSymbolIsPlain | src/lib/courseStorage.ts:17 | code symbols are neither lower-case nor whitespace |
| CourseStorage.GenerateCourseCode | src/lib/courseStorage.ts:15-21 | six characters, each drawn from the alphabet |
| CourseStorage.WellFormedCodeInAlphabet | src/lib/courseStorage.ts:15-21 | a well-formed code is exactly a six-character string over the alphabet |
| CourseStorage.ExistingCodes | src/lib/courseStorage.ts:27 | the set holds exactly the stored courses' codes |
| CourseStorage.PickCode | src/lib/courseStorage.ts:25-28 | the re-roll loop returns the first generated candidate not among the existing codes |
| CourseStorage.CreateCourse | src/lib/courseStorage.ts:23-43 | appends one course whose code is well formed and differs from every stored code, with the input's name and subject, the professor's id and name, and no students; existing courses unchanged |
| CourseStorageProperties.CreateCourseKeepsValid | src/lib/courseStorage.ts:23-43 | creation keeps codes well formed and pairwise distinct and student lists duplicate-free |
| CourseStorage.GetCoursesByProfessor | src/lib/courseStorage.ts:45-47 | exactly the courses of that professor, in storage order |
| CourseStorage.GetCourseById | src/lib/courseStorage.ts:49-51 | null iff no course has the id; otherwise the first course with it |
| CourseStorage.NormalizeCode | src/lib/courseStorage.ts:54 | `code.trim().toUpperCase()` is the upper-cased middle of the query, with only blanks cut off its two ends; it is no longer than the query and has no lower-case letter and no blank at either end |
| CourseStorage.NormalizeCodeUpperFirst | src/lib/courseStorage.ts:54 | normalizing equals upper-casing the query first and trimming after |
| CourseStorage.NormalizeCodeIdempotent | src/lib/courseStorage.ts:54 | normalizing an already normalized query changes nothing |
| CourseStorageProperties.CreatedCourseFound | src/lib/courseStorage.ts:23-51 | a course created under an unused id is found by that id and listed among its professor's courses |
| CourseStorage.MatchIndex | src/lib/courseStorage.ts:60-61 | the first course whose upper-cased code equals the trimmed, upper-cased query; none iff no course matches |
| CourseStorage.GetCourseByCode | src/lib/courseStorage.ts:53-56 | null iff no course matches the normalized query; otherwise the first match |
| CourseStorageProperties.WellFormedCodeIsUpper | src/lib/courseStorage.ts:55 | upper-casing a stored code leaves it unchanged |
| CourseStorageProperties.CodeMatchesAtMostOne | src/lib/courseStorage.ts:53-56 | with distinct well-formed codes a query matches at most one course |
| CourseStorageProperties.LookupIgnoresCaseAndPadding | src/lib/courseStorage.ts:53-56 | a stored code typed in lower case with surrounding whitespace finds exactly that course |
| CourseStorageProperties.MatchIndexReadsCodesOnly | src/lib/courseStorage.ts:61 | which course a query selects depends only on the stored codes |
| CourseStorage.JoinCourseByCode | src/lib/courseStorage.ts:58-70 | no match: fails with "Invalid course code" and writes nothing; a match: the student is listed afterwards, appended once if absent with only that course replaced, nothing written if already present |
| CourseStorageProperties.JoinKeepsValid | src/lib/courseStorage.ts:63-69 | joining keeps codes well formed and distinct and student lists duplicate-free |
| CourseStorageProperties.JoinIdempotent | src/lib/courseStorage.ts:63-69 | a second identical join writes nothing and returns the same course |
| CourseStorageProperties.JoinTwiceListsOnce | src/lib/courseStorage.ts:63-69 | after joining twice the student's id occurs exactly once |
| CourseStorage.ListAllCourses | src/lib/courseStorage.ts:72 | the stored collection itself, unfiltered and in storage order |
| ScheduleStorage.ListSessionsByProfessor | src/lib/scheduleStorage.ts:14-16 | exactly the sessions of that professor, each as often as stored, in storage order |
| ScheduleStorage.ListSessionsByCourse | src/lib/scheduleStorage.ts:18-20 | exactly the sessions of that course, each as often as stored, in storage order |
| ScheduleStorage.ListSessionsByCourseIds | src/lib/scheduleStorage.ts:22-25 | exactly the sessions whose course is in the given list, in storage order |
| ScheduleStorageProperties.CourseIdsSingleton | src/lib/scheduleStorage.ts:18-25 | listing by a one-element id list equals listing by that course |
| ScheduleStorage.CreateClassSession | src/lib/scheduleStorage.ts:27-33 | appends one session equal to the payload plus the supplied id and creation time, with no updatedAt |
| ScheduleStorage.MergeSession | src/lib/scheduleStorage.ts:39 | every property the update carries wins and every other keeps its value, except that updatedAt is always now |
| ScheduleStorageProperties.EmptyPatchOnlyStamps | src/lib/scheduleStorage.ts:39 | an empty update changes only updatedAt |
| ScheduleStorageProperties.FullPatchReplaces | src/lib/scheduleStorage.ts:39 | updates win on every property they carry, except that updatedAt is the stamp |
| ScheduleStorageProperties.PatchStampIgnored | src/lib/scheduleStorage.ts:39 | an updatedAt carried by the update has no effect |
| ScheduleStorageProperties.MergeSessionIdempotent | src/lib/scheduleStorage.ts:39 | applying an update again only moves the stamp |
| ScheduleStorage.UpdateSession | src/lib/scheduleStorage.ts:35-43 | no match: fails with "Session not found" and writes nothing; a match: only the first matching index is replaced by the merge, the length and the other records unchanged |
| ScheduleStorageProperties.CreateThenUpdate | src/lib/scheduleStorage.ts:27-43 | a session created under an unused id is the one a later update of that id changes |
| ScheduleStorage.CancelSession | src/lib/scheduleStorage.ts:45-47 | cancellation keeps the session in place with canceled = true and a new updatedAt, every other property unchanged; fails like updateSession on an unknown id |
| ScheduleStorageProperties.CanceledSessionStaysListed | src/lib/scheduleStorage.ts:45-47 | a canceled session is still listed for its course and its professor |
| ScheduleStorage.DeleteSession | src/lib/scheduleStorage.ts:49-53 | removes every session with the id, keeps the rest in order, and changes nothing for an unknown id |
| ScheduleStorageProperties.DeleteSessionIdempotent | src/lib/scheduleStorage.ts:49-53 | deleting twice is deleting once |
| ScheduleStorageProperties.DeleteThenUpdateFails | src/lib/scheduleStorage.ts:35-53 | after deletion an update of that id fails with "Session not found" |
| AnnouncementStorage.CourseAnnouncements | src/lib/announcementStorage.ts:15 | the course's announcements, each as often as stored, in storage order |
| AnnouncementStorage.ListAnnouncementsByCourse | src/lib/announcementStorage.ts:14-16 | a permutation of exactly the course's announcements, newest first |
| AnnouncementStorageProperties.ListingKeepsTiesInStorageOrder | src/lib/announcementStorage.ts:14-16 | announcements with equal creation time are listed in storage order |
| AnnouncementStorage.CreateAnnouncement | src/lib/announcementStorage.ts:18-31 | appends one announcement built from the four input properties, the supplied id and creation time, with no updatedAt |
| AnnouncementStorageProperties.NewAnnouncementListedFirst | src/lib/announcementStorage.ts:14-31 | an announcement newer than all others of its course heads that course's listing |
| AnnouncementStorage.EditAnnouncement | src/lib/announcementStorage.ts:37 | the rewrite sets content and updatedAt and keeps id, course, author and creation time |
| AnnouncementStorageProperties.EditTwice | src/lib/announcementStorage.ts:37 | two edits leave the last content and the last stamp |
| AnnouncementStorage.UpdateAnnouncement | src/lib/announcementStorage.ts:33-41 | no match: fails with "Announcement not found" and writes nothing; a match: only the first matching index is rewritten |
| AnnouncementStorageProperties.EditedAnnouncementStaysListed | src/lib/announcementStorage.ts:33-41 | an edited announcement is still listed for its course |
| AnnouncementStorage.DeleteAnnouncement | src/lib/announcementStorage.ts:43-47 | removes every announcement with the id, keeps the rest in order, and changes nothing for an unknown id |
| AnnouncementStorageProperties.DeleteAnnouncementIdempotent | src/lib/announcementStorage.ts:43-47 | deleting twice is deleting once |
| AnnouncementStorageProperties.DeleteThenEditFails | src/lib/announcementStorage.ts:33-47 | after deletion an edit of that id fails with "Announcement not found" |
| AssignmentStorage.CourseAssignments | src/lib/assignmentStorage.ts:15 | the course's assignments, each as often as stored, in storage order |
| AssignmentStorage.ListAssignmentsByCourse | src/lib/assignmentStorage.ts:14-16 | a permutation of exactly the course's assignments, newest first |
| AssignmentStorageProperties.ListingKeepsTiesInStorageOrder | src/lib/assignmentStorage.ts:14-16 | assignments with equal creation time are listed in storage order |
| AssignmentStorage.CreateAssignment | src/lib/assignmentStorage.ts:18-24 | appends one assignment equal to the input plus the supplied id and creation time, with no updatedAt |
| AssignmentStorage.MergeAssignment | src/lib/assignmentStorage.ts:30 | every property the update carries wins and every other keeps its value, except that updatedAt is always now |
| AssignmentStorageProperties.EmptyPatchOnlyStamps | src/lib/assignmentStorage.ts:30 | an empty update changes only updatedAt |
| AssignmentStorageProperties.RescheduleKeepsTheRest | src/lib/assignmentStorage.ts:30 | changing the due date keeps every untouched property |
| AssignmentStorageProperties.PatchStampIgnored | src/lib/assignmentStorage.ts:30 | an updatedAt carried by the update has no effect |
| AssignmentStorage.UpdateAssignment | src/lib/assignmentStorage.ts:26-34 | no match: fails with "Assignment not found" and writes nothing; a match: only the first matching index is replaced by the merge, the length and the other records unchanged |
| AssignmentStorageProperties.UpdateReachesFirstOnly | src/lib/assignmentStorage.ts:28-31 | when ids repeat, later records with the id are never touched by an update |
| AssignmentStorageProperties.UpdatedAssignmentStaysListed | src/lib/assignmentStorage.ts:26-34 | an updated assignment is listed for the course it now names |
| AssignmentStorage.DeleteAssignment | src/lib/assignmentStorage.ts:36-39 | removes every assignment with the id, keeps the rest in order, and changes nothing for an unknown id |
| AssignmentStorageProperties.DeleteAssignmentIdempotent | src/lib/assignmentStorage.ts:36-39 | deleting twice is deleting once |
| AssignmentStorageProperties.DeleteThenUpdateFails | src/lib/assignmentStorage.ts:26-39 | after deletion an update of that id fails with "Assignment not found" |
| SubmissionStorage.ListSubmissionsByAssignment | src/lib/submissionStorage.ts:14-16 | exactly the submissions for that assignment, each as often as stored, in storage order |
| SubmissionStorage.ListSubmissionsByStudent | src/lib/submissionStorage.ts:18-20 | exactly the submissions of that student, each as often as stored, in storage order |
| SubmissionStorage.CreateSubmission | src/lib/submissionStorage.ts:22-28 | appends one submission equal to the input plus the supplied id and submission time |
| SubmissionStorage.MergeSubmission | src/lib/submissionStorage.ts:34 | `{ ...submission, ...updates }`: every property the update carries wins, every other keeps its value, and no stamp is added |
| SubmissionStorageProperties.SecondSubmissionAccepted | src/lib/submissionStorage.ts:22-28 | a second submission for the same assignment by the same student is stored and listed too |
| SubmissionStorageProperties.EmptyPatchIsIdentity | src/lib/submissionStorage.ts:34 | no stamp is added: an empty update changes nothing |
| SubmissionStorageProperties.GradingKeepsTheRest | src/lib/submissionStorage.ts:34 | grading sets grade and feedback and keeps every other property, submission time included |
| SubmissionStorageProperties.MergeSubmissionIdempotent | src/lib/submissionStorage.ts:34 | merging the same update twice is merging it once |
| SubmissionStorage.UpdateSubmission | src/lib/submissionStorage.ts:30-38 | no match: fails with "Submission not found" and writes nothing; a match: only the first matching index is replaced by the merge, the length and the other records unchanged |
| SubmissionStorageProperties.UpdateSubmissionIdempotent | src/lib/submissionStorage.ts:30-38 | repeating an update that keeps the id writes nothing new and returns the same record |
| Scenario.RegistrationsSucceed | src/lib/userStorage.ts:45-63 | in an empty browser a professor and then a student register successfully next to the seeded administrator |
| Scenario.OwnCodeMatches | src/lib/courseStorage.ts:60-61 | a generated code typed back exactly matches its course |
| Scenario.JoinOnlyCourse | src/lib/courseStorage.ts:58-70 | in a store holding only the new course, joining by its code succeeds and lists exactly the student |
| Scenario.Enrolment | src/lib/courseStorage.ts:23-70 | after both registrations, the professor's course gets a well-formed code and joining with it lists exactly the student's id |
| Scenario.Grading | src/lib/submissionStorage.ts:14-38 | the assignment's only submission is the student's, and grading it with 95 changes the grade and nothing else, in the returned and in the stored record |

## Left out

- localStorage and JSON serialisation are not modelled: each key is a value in memory. Parse errors, quota errors and the `user` key's contents are out of scope.
- A users key holding the empty string is not modelled. The original treats it as absent and seeds.
- Dates are milliseconds. ISO string formatting, date parsing, and comparisons with an unparsable date (`new Date() > Invalid Date` is false) are out of scope.
- Id generation (`Date.now().toString()`) and session-id generation (clock plus base-36 random digits) are not modelled: ids are parameters, and they are not assumed unique.
- `Math.random()` floating point is not modelled: a draw is an exact fraction below one.
- CourseStorage.CreateCourse: requires that some supplied candidate code is fresh (`OracleTerminates`). The original loop never returns otherwise, so the model covers only terminating runs.
- CourseStorage.PickCode: same precondition as `CreateCourse`, for the same reason.
- Text.Lower: maps only the ASCII letters; JavaScript's full Unicode case mapping is out of scope. Email comparison inherits this.
- Text.Upper: maps only the ASCII letters, for the same reason. Code lookup inherits this.
- Roles are a three-value datatype. A stored role string outside admin, professor and student cannot be represented, though a query with any role string can.
- An update that explicitly sets a required property to `undefined`, and extra keys a spread would copy in, are not representable in the patch datatypes.
- Session ids are map keys. JavaScript prototype keys such as `__proto__` on the sessions object are not modelled.
- Grades are real numbers. NaN, infinities and `Number(...)` parsing are out of scope.
- `joinCourseByCode` pushes the student's id into the stored course's `studentIds` array (`src/lib/courseStorage.ts:65`), so the returned course and the stored one are the same object. The model builds a new course value and stores it in that slot, which gives the same stored and returned records. (`updateUser` already replaces the array slot with a fresh spread object.)
- `src/contexts/AuthContext.tsx`, `src/lib/demoSetup.ts` and all pages and components are not part of this model.
- Concurrent writers (two tabs) are not modelled: every operation runs to completion alone.

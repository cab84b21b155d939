/** The submission store (src/lib/submissionStorage.ts): students' answers to
    assignments under the `learnflow_submissions` key; an absent key reads
    as the empty collection. Nothing here stops a student from submitting
    twice, and updates carry no timestamp. */
module SubmissionStorage {
  import opened Outcomes
  import opened Seqs

  /** `Submission`; `submittedAt` is milliseconds, `grade` a number. */
  datatype Submission = Submission(
    id: string,
    assignmentId: string,
    courseId: string,
    studentId: string,
    studentName: string,
    fileName: string,
    fileType: string,
    fileDataBase64: string,
    submittedAt: int,
    grade: Option<real>,
    feedback: Option<string>)

  /** `Omit<Submission, 'id' | 'submittedAt'>`. */
  datatype SubmissionInput = SubmissionInput(
    assignmentId: string,
    courseId: string,
    studentId: string,
    studentName: string,
    fileName: string,
    fileType: string,
    fileDataBase64: string,
    grade: Option<real>,
    feedback: Option<string>)

  /** `Partial<Submission>`: `None` means the key is absent; for `grade` and
      `feedback`, `Some(None)` is a key present with the value `undefined`. */
  datatype SubmissionPatch = SubmissionPatch(
    id: Option<string>,
    assignmentId: Option<string>,
    courseId: Option<string>,
    studentId: Option<string>,
    studentName: Option<string>,
    fileName: Option<string>,
    fileType: Option<string>,
    fileDataBase64: Option<string>,
    submittedAt: Option<int>,
    grade: Option<Option<real>>,
    feedback: Option<Option<string>>)

  const SubmissionNotFoundMessage := "Submission not found"

  function SubmissionId(s: Submission): string
  {
    s.id
  }

  /** The caller-supplied part of a stored submission. */
  function InputOf(s: Submission): SubmissionInput
  {
    SubmissionInput(s.assignmentId, s.courseId, s.studentId, s.studentName, s.fileName, s.fileType,
                    s.fileDataBase64, s.grade, s.feedback)
  }

  /** `listSubmissionsByAssignment`. */
  function ListSubmissionsByAssignment(all: seq<Submission>, assignmentId: string): (r: seq<Submission>)
    ensures IsSubsequence(r, all)
    ensures forall s :: s in r <==> s in all && s.assignmentId == assignmentId
    ensures forall s :: multiset(r)[s] == if s.assignmentId == assignmentId then multiset(all)[s] else 0
  {
    var answers := (s: Submission) => s.assignmentId == assignmentId;
    FilterFacts(all, answers);
    Filter(all, answers)
  }

  /** `listSubmissionsByStudent`. */
  function ListSubmissionsByStudent(all: seq<Submission>, studentId: string): (r: seq<Submission>)
    ensures IsSubsequence(r, all)
    ensures forall s :: s in r <==> s in all && s.studentId == studentId
    ensures forall s :: multiset(r)[s] == if s.studentId == studentId then multiset(all)[s] else 0
  {
    var byStudent := (s: Submission) => s.studentId == studentId;
    FilterFacts(all, byStudent);
    Filter(all, byStudent)
  }

  /** `createSubmission`: appends the input stamped with the supplied id and
      submission time. It never fails. */
  function CreateSubmission(all: seq<Submission>, input: SubmissionInput, id: string, now: int)
    : (r: Step<seq<Submission>, Submission>)
    ensures r.next == all + [r.out]
    ensures InputOf(r.out) == input
    ensures r.out.id == id && r.out.submittedAt == now
  {
    var item := Submission(id, input.assignmentId, input.courseId, input.studentId, input.studentName,
                           input.fileName, input.fileType, input.fileDataBase64, now, input.grade, input.feedback);
    Step(all + [item], item)
  }

  /** `{ ...submission, ...updates }`: every property the update carries
      wins, every other keeps the submission's value; no stamp is added, so
      `submittedAt` changes only when the update carries it. */
  function MergeSubmission(s: Submission, p: SubmissionPatch): (r: Submission)
    ensures Spread(p.id, s.id, r.id) && Spread(p.assignmentId, s.assignmentId, r.assignmentId)
    ensures Spread(p.courseId, s.courseId, r.courseId) && Spread(p.studentId, s.studentId, r.studentId)
    ensures Spread(p.studentName, s.studentName, r.studentName) && Spread(p.fileName, s.fileName, r.fileName)
    ensures Spread(p.fileType, s.fileType, r.fileType)
    ensures Spread(p.fileDataBase64, s.fileDataBase64, r.fileDataBase64)
    ensures Spread(p.submittedAt, s.submittedAt, r.submittedAt)
    ensures Spread(p.grade, s.grade, r.grade) && Spread(p.feedback, s.feedback, r.feedback)
  {
    Submission(
      Pick(p.id, s.id),
      Pick(p.assignmentId, s.assignmentId),
      Pick(p.courseId, s.courseId),
      Pick(p.studentId, s.studentId),
      Pick(p.studentName, s.studentName),
      Pick(p.fileName, s.fileName),
      Pick(p.fileType, s.fileType),
      Pick(p.fileDataBase64, s.fileDataBase64),
      Pick(p.submittedAt, s.submittedAt),
      Pick(p.grade, s.grade),
      Pick(p.feedback, s.feedback))
  }

  /** `updateSubmission`: merges the patch into the first submission with
      that id and leaves every other position alone; fails with "Submission
      not found", writing nothing, when no submission has the id. */
  function UpdateSubmission(all: seq<Submission>, id: string, patch: SubmissionPatch)
    : (r: Step<seq<Submission>, Result<Submission>>)
    ensures FirstIndexOf(all, SubmissionId, id).None? <==> r == Step(all, Failure(SubmissionNotFoundMessage))
    ensures FirstIndexOf(all, SubmissionId, id).Some? ==>
      var i := FirstIndexOf(all, SubmissionId, id).value;
      && r.out == Success(MergeSubmission(all[i], patch))
      && |r.next| == |all|
      && r.next[i] == r.out.value
      && forall j :: 0 <= j < |all| && j != i ==> r.next[j] == all[j]
  {
    UpdateFirst(all, SubmissionId, id, (s: Submission) => MergeSubmission(s, patch), SubmissionNotFoundMessage)
  }
}

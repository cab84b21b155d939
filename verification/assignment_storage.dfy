/** The assignment store (src/lib/assignmentStorage.ts): assignments under
    the `learnflow_assignments` key; an absent key reads as the empty
    collection. The attached file is an opaque string. */
module AssignmentStorage {
  import opened Outcomes
  import opened Seqs
  import opened Sorting

  /** `Assignment`; `createdAt` and `updatedAt` are milliseconds, `dueAt` is
      kept as the string the caller gave. */
  datatype Assignment = Assignment(
    id: string,
    courseId: string,
    authorId: string,
    authorName: string,
    message: string,
    fileName: string,
    fileType: string,
    fileDataBase64: string,
    createdAt: int,
    updatedAt: Option<int>,
    dueAt: string)

  /** `Omit<Assignment, 'id' | 'createdAt' | 'updatedAt'>`. */
  datatype AssignmentInput = AssignmentInput(
    courseId: string,
    authorId: string,
    authorName: string,
    message: string,
    fileName: string,
    fileType: string,
    fileDataBase64: string,
    dueAt: string)

  /** `Partial<Assignment>`: `None` means the key is absent; for `updatedAt`,
      `Some(None)` is a key present with the value `undefined`. */
  datatype AssignmentPatch = AssignmentPatch(
    id: Option<string>,
    courseId: Option<string>,
    authorId: Option<string>,
    authorName: Option<string>,
    message: Option<string>,
    fileName: Option<string>,
    fileType: Option<string>,
    fileDataBase64: Option<string>,
    createdAt: Option<int>,
    updatedAt: Option<Option<int>>,
    dueAt: Option<string>)

  const AssignmentNotFoundMessage := "Assignment not found"

  function AssignmentId(a: Assignment): string
  {
    a.id
  }

  /** The sort key: `new Date(a.createdAt).getTime()`. */
  function AssignmentTime(a: Assignment): int
  {
    a.createdAt
  }

  /** The caller-supplied part of a stored assignment. */
  function InputOf(a: Assignment): AssignmentInput
  {
    AssignmentInput(a.courseId, a.authorId, a.authorName, a.message, a.fileName, a.fileType,
                    a.fileDataBase64, a.dueAt)
  }

  /** The assignments of one course, in storage order. */
  function CourseAssignments(all: seq<Assignment>, courseId: string): (r: seq<Assignment>)
    ensures IsSubsequence(r, all)
    ensures forall a :: multiset(r)[a] == if a.courseId == courseId then multiset(all)[a] else 0
  {
    var inCourse := (a: Assignment) => a.courseId == courseId;
    FilterFacts(all, inCourse);
    Filter(all, inCourse)
  }

  /** `listAssignmentsByCourse`: exactly the course's assignments, each as
      often as stored, newest first. */
  function ListAssignmentsByCourse(all: seq<Assignment>, courseId: string): (r: seq<Assignment>)
    ensures NewestFirst(r, AssignmentTime)
    ensures forall a :: multiset(r)[a] == if a.courseId == courseId then multiset(all)[a] else 0
    ensures forall a :: a in r <==> a in all && a.courseId == courseId
  {
    var r := SortNewestFirst(CourseAssignments(all, courseId), AssignmentTime);
    assert forall a :: a in r <==> multiset(r)[a] > 0;
    assert forall a :: a in all <==> multiset(all)[a] > 0;
    r
  }

  /** `createAssignment`: appends the input stamped with the supplied id and
      creation time, and no `updatedAt`. */
  function CreateAssignment(all: seq<Assignment>, input: AssignmentInput, id: string, now: int)
    : (r: Step<seq<Assignment>, Assignment>)
    ensures r.next == all + [r.out]
    ensures InputOf(r.out) == input
    ensures r.out.id == id && r.out.createdAt == now && r.out.updatedAt.None?
  {
    var item := Assignment(id, input.courseId, input.authorId, input.authorName, input.message,
                           input.fileName, input.fileType, input.fileDataBase64, now, None, input.dueAt);
    Step(all + [item], item)
  }

  /** `{ ...assignment, ...updates, updatedAt: now }`: the stamp is written
      last, so it wins over any `updatedAt` the patch carries. */
  function MergeAssignment(a: Assignment, p: AssignmentPatch, now: int): (r: Assignment)
    ensures r.updatedAt == Some(now)
    ensures Spread(p.id, a.id, r.id) && Spread(p.courseId, a.courseId, r.courseId)
    ensures Spread(p.authorId, a.authorId, r.authorId) && Spread(p.authorName, a.authorName, r.authorName)
    ensures Spread(p.message, a.message, r.message) && Spread(p.fileName, a.fileName, r.fileName)
    ensures Spread(p.fileType, a.fileType, r.fileType)
    ensures Spread(p.fileDataBase64, a.fileDataBase64, r.fileDataBase64)
    ensures Spread(p.createdAt, a.createdAt, r.createdAt) && Spread(p.dueAt, a.dueAt, r.dueAt)
  {
    Assignment(
      Pick(p.id, a.id),
      Pick(p.courseId, a.courseId),
      Pick(p.authorId, a.authorId),
      Pick(p.authorName, a.authorName),
      Pick(p.message, a.message),
      Pick(p.fileName, a.fileName),
      Pick(p.fileType, a.fileType),
      Pick(p.fileDataBase64, a.fileDataBase64),
      Pick(p.createdAt, a.createdAt),
      Some(now),
      Pick(p.dueAt, a.dueAt))
  }

  /** `updateAssignment`: merges the patch into the first assignment with
      that id and leaves every other position alone; fails with "Assignment
      not found", writing nothing, when no assignment has the id. */
  function UpdateAssignment(all: seq<Assignment>, id: string, patch: AssignmentPatch, now: int)
    : (r: Step<seq<Assignment>, Result<Assignment>>)
    ensures FirstIndexOf(all, AssignmentId, id).None? <==> r == Step(all, Failure(AssignmentNotFoundMessage))
    ensures FirstIndexOf(all, AssignmentId, id).Some? ==>
      var i := FirstIndexOf(all, AssignmentId, id).value;
      && r.out == Success(MergeAssignment(all[i], patch, now))
      && |r.next| == |all|
      && r.next[i] == r.out.value
      && forall j :: 0 <= j < |all| && j != i ==> r.next[j] == all[j]
  {
    UpdateFirst(all, AssignmentId, id, (a: Assignment) => MergeAssignment(a, patch, now), AssignmentNotFoundMessage)
  }

  /** `deleteAssignment`: every assignment with that id goes, the rest keep
      their order; an unknown id changes nothing. */
  function DeleteAssignment(all: seq<Assignment>, id: string): (r: seq<Assignment>)
    ensures IsSubsequence(r, all)
    ensures forall a :: a in r <==> a in all && a.id != id
    ensures forall a :: multiset(r)[a] == if a.id != id then multiset(all)[a] else 0
    ensures (forall j :: 0 <= j < |all| ==> all[j].id != id) ==> r == all
  {
    RemoveAll(all, AssignmentId, id)
  }
}

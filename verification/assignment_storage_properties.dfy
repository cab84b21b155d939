/** Properties of the assignment store across calls: what a merge keeps,
    how the listing orders ties, and how deletion and lookup interact. */
module AssignmentStorageProperties {
  import opened Outcomes
  import opened Seqs
  import opened Sorting
  import opened AssignmentStorage

  /** The patch with no keys, `{}`. */
  const EmptyPatch := AssignmentPatch(None, None, None, None, None, None, None, None, None, None, None)

  /** A patch that changes the due date only. */
  function Reschedule(dueAt: string): AssignmentPatch
  {
    EmptyPatch.(dueAt := Some(dueAt))
  }

  /** An empty update still stamps `updatedAt` and changes nothing else. */
  lemma EmptyPatchOnlyStamps(a: Assignment, now: int)
    ensures MergeAssignment(a, EmptyPatch, now) == a.(updatedAt := Some(now))
  {
  }

  /** Untouched properties are preserved: moving the due date keeps the
      message, the file, the author and the creation time. */
  lemma RescheduleKeepsTheRest(a: Assignment, dueAt: string, now: int)
    ensures MergeAssignment(a, Reschedule(dueAt), now) == a.(dueAt := dueAt, updatedAt := Some(now))
  {
  }

  /** Whatever `updatedAt` the patch carries is overwritten. */
  lemma PatchStampIgnored(a: Assignment, p: AssignmentPatch, stamp: Option<Option<int>>, now: int)
    ensures MergeAssignment(a, p.(updatedAt := stamp), now) == MergeAssignment(a, p, now)
  {
  }

  /** Assignments created at the same instant are listed in the order they
      were stored. */
  lemma ListingKeepsTiesInStorageOrder(all: seq<Assignment>, courseId: string, t: int)
    ensures var listed := ListAssignmentsByCourse(all, courseId);
      && Stamped(listed, AssignmentTime, t) == Stamped(CourseAssignments(all, courseId), AssignmentTime, t)
      && IsSubsequence(Stamped(listed, AssignmentTime, t), all)
  {
    var course := CourseAssignments(all, courseId);
    SortIsStable(course, AssignmentTime, t);
    StampedIsSubsequence(course, AssignmentTime, t);
    SubsequenceTransitive(Stamped(course, AssignmentTime, t), course, all);
  }

  /** An update that keeps the course keeps the assignment listed for it. */
  lemma UpdatedAssignmentStaysListed(all: seq<Assignment>, id: string, patch: AssignmentPatch, now: int)
    requires UpdateAssignment(all, id, patch, now).out.Success?
    ensures var r := UpdateAssignment(all, id, patch, now);
      r.out.value in ListAssignmentsByCourse(r.next, r.out.value.courseId)
  {
    var r := UpdateAssignment(all, id, patch, now);
    var i := FirstIndexOf(all, AssignmentId, id).value;
    assert r.next[i] == r.out.value;
  }

  /** Once deleted, an assignment can no longer be updated. */
  lemma DeleteThenUpdateFails(all: seq<Assignment>, id: string, patch: AssignmentPatch, now: int)
    ensures var rest := DeleteAssignment(all, id);
      UpdateAssignment(rest, id, patch, now) == Step(rest, Failure(AssignmentNotFoundMessage))
  {
    RemoveAllIdempotent(all, AssignmentId, id);
  }

  /** Deleting twice is deleting once. */
  lemma DeleteAssignmentIdempotent(all: seq<Assignment>, id: string)
    ensures DeleteAssignment(DeleteAssignment(all, id), id) == DeleteAssignment(all, id)
  {
    RemoveAllIdempotent(all, AssignmentId, id);
  }

  /** Ids are not unique: when two assignments share an id, an update only
      ever reaches the first of them. */
  lemma UpdateReachesFirstOnly(all: seq<Assignment>, id: string, patch: AssignmentPatch, now: int, k: int)
    requires 0 <= k < |all| && all[k].id == id
    requires exists j :: 0 <= j < k && all[j].id == id
    ensures UpdateAssignment(all, id, patch, now).next[k] == all[k]
  {
    var j :| 0 <= j < k && all[j].id == id;
    assert AssignmentId(all[j]) == id;
  }
}

/** Properties of the schedule store across calls: what a merge keeps, that
    cancellation is a soft flag, and how deletion and lookup interact. */
module ScheduleStorageProperties {
  import opened Outcomes
  import opened Seqs
  import opened ScheduleStorage

  /** The patch with no keys, `{}`. */
  const EmptyPatch := SessionPatch(None, None, None, None, None, None, None, None, None, None, None, None)

  /** The patch that carries every property of `t`. */
  function FullPatch(t: ClassSession): SessionPatch
  {
    SessionPatch(Some(t.id), Some(t.courseId), Some(t.courseName), Some(t.professorId), Some(t.subject),
                 Some(t.date), Some(t.startTime), Some(t.endTime), Some(t.notes), Some(t.canceled),
                 Some(t.createdAt), Some(t.updatedAt))
  }

  /** An empty update still stamps `updatedAt` and changes nothing else. */
  lemma EmptyPatchOnlyStamps(s: ClassSession, now: int)
    ensures MergeSession(s, EmptyPatch, now) == s.(updatedAt := Some(now))
  {
  }

  /** Updates win: a patch carrying every property replaces the session,
      except that `updatedAt` is the stamp, not the patch's value. */
  lemma FullPatchReplaces(s: ClassSession, t: ClassSession, now: int)
    ensures MergeSession(s, FullPatch(t), now) == t.(updatedAt := Some(now))
  {
  }

  /** Whatever `updatedAt` the patch carries is overwritten. */
  lemma PatchStampIgnored(s: ClassSession, p: SessionPatch, stamp: Option<Option<int>>, now: int)
    ensures MergeSession(s, p.(updatedAt := stamp), now) == MergeSession(s, p, now)
  {
  }

  /** Applying the same patch again only moves the stamp. */
  lemma MergeSessionIdempotent(s: ClassSession, p: SessionPatch, now1: int, now2: int)
    ensures MergeSession(MergeSession(s, p, now1), p, now2) == MergeSession(s, p, now2)
  {
  }

  /** A canceled session is still stored and still listed for its course
      and professor, now flagged as canceled. */
  lemma CanceledSessionStaysListed(all: seq<ClassSession>, id: string, now: int)
    requires CancelSession(all, id, now).out.Success?
    ensures var r := CancelSession(all, id, now);
      && |r.next| == |all|
      && r.out.value.canceled == Some(true)
      && r.out.value in ListSessionsByCourse(r.next, r.out.value.courseId)
      && r.out.value in ListSessionsByProfessor(r.next, r.out.value.professorId)
  {
    var r := CancelSession(all, id, now);
    var i := FirstIndexOf(all, SessionId, id).value;
    assert r.next[i] == r.out.value;
  }

  /** Once deleted, a session can no longer be updated or canceled. */
  lemma DeleteThenUpdateFails(all: seq<ClassSession>, id: string, patch: SessionPatch, now: int)
    ensures var rest := DeleteSession(all, id);
      UpdateSession(rest, id, patch, now) == Step(rest, Failure(SessionNotFoundMessage))
  {
    RemoveAllIdempotent(all, SessionId, id);
  }

  /** Deleting twice is deleting once. */
  lemma DeleteSessionIdempotent(all: seq<ClassSession>, id: string)
    ensures DeleteSession(DeleteSession(all, id), id) == DeleteSession(all, id)
  {
    RemoveAllIdempotent(all, SessionId, id);
  }

  /** Listing by a one-element id set is listing by that course. */
  lemma CourseIdsSingleton(all: seq<ClassSession>, courseId: string)
    ensures ListSessionsByCourseIds(all, [courseId]) == ListSessionsByCourse(all, courseId)
  {
    FilterSame(all, (s: ClassSession) => s.courseId in [courseId], (s: ClassSession) => s.courseId == courseId);
  }

  /** A freshly created session with an unused id is the one a later update
      of that id changes. */
  lemma CreateThenUpdate(all: seq<ClassSession>, payload: SessionPayload, id: string, now: int,
                         patch: SessionPatch, later: int)
    requires forall j :: 0 <= j < |all| ==> all[j].id != id
    ensures var created := CreateClassSession(all, payload, id, now);
      var r := UpdateSession(created.next, id, patch, later);
      && r.out == Success(MergeSession(created.out, patch, later))
      && r.next == all + [r.out.value]
  {
    var created := CreateClassSession(all, payload, id, now);
    assert forall j :: 0 <= j < |all| ==> SessionId(created.next[j]) != id;
    assert SessionId(created.next[|all|]) == id;
    assert FirstIndexOf(created.next, SessionId, id) == Some(|all|);
    var r := UpdateSession(created.next, id, patch, later);
    assert r.next == all + [r.out.value];
  }
}

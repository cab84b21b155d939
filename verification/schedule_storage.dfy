/** The class schedule store (src/lib/scheduleStorage.ts): class sessions
    under the `learnflow_schedule` key. An absent key reads as the empty
    collection, so the store is just the sequence of stored sessions.

    Not to be confused with the login sessions of the user store: the
    operations here are named after class sessions. */
module ScheduleStorage {
  import opened Outcomes
  import opened Seqs

  /** `ClassSession`; times are milliseconds, the optional properties are
      `None` when absent. */
  datatype ClassSession = ClassSession(
    id: string,
    courseId: string,
    courseName: string,
    professorId: string,
    subject: string,
    date: string,
    startTime: string,
    endTime: string,
    notes: Option<string>,
    canceled: Option<bool>,
    createdAt: int,
    updatedAt: Option<int>)

  /** `Omit<ClassSession, 'id' | 'createdAt' | 'updatedAt'>`. */
  datatype SessionPayload = SessionPayload(
    courseId: string,
    courseName: string,
    professorId: string,
    subject: string,
    date: string,
    startTime: string,
    endTime: string,
    notes: Option<string>,
    canceled: Option<bool>)

  /** `Partial<ClassSession>`: `None` means the key is absent. For an optional
      property, `Some(None)` is a key present with the value `undefined`. */
  datatype SessionPatch = SessionPatch(
    id: Option<string>,
    courseId: Option<string>,
    courseName: Option<string>,
    professorId: Option<string>,
    subject: Option<string>,
    date: Option<string>,
    startTime: Option<string>,
    endTime: Option<string>,
    notes: Option<Option<string>>,
    canceled: Option<Option<bool>>,
    createdAt: Option<int>,
    updatedAt: Option<Option<int>>)

  const SessionNotFoundMessage := "Session not found"

  /** The patch `cancelSession` applies: `{ canceled: true }`. */
  const CancelPatch := SessionPatch(None, None, None, None, None, None, None, None, None, Some(Some(true)), None, None)

  function SessionId(s: ClassSession): string
  {
    s.id
  }

  /** The caller-supplied part of a stored session. */
  function PayloadOf(s: ClassSession): SessionPayload
  {
    SessionPayload(s.courseId, s.courseName, s.professorId, s.subject, s.date,
                   s.startTime, s.endTime, s.notes, s.canceled)
  }

  /** `listSessionsByProfessor`. */
  function ListSessionsByProfessor(all: seq<ClassSession>, professorId: string): (r: seq<ClassSession>)
    ensures IsSubsequence(r, all)
    ensures forall s :: s in r <==> s in all && s.professorId == professorId
    ensures forall s :: multiset(r)[s] == if s.professorId == professorId then multiset(all)[s] else 0
  {
    var taught := (s: ClassSession) => s.professorId == professorId;
    FilterFacts(all, taught);
    Filter(all, taught)
  }

  /** `listSessionsByCourse`. */
  function ListSessionsByCourse(all: seq<ClassSession>, courseId: string): (r: seq<ClassSession>)
    ensures IsSubsequence(r, all)
    ensures forall s :: s in r <==> s in all && s.courseId == courseId
    ensures forall s :: multiset(r)[s] == if s.courseId == courseId then multiset(all)[s] else 0
  {
    var inCourse := (s: ClassSession) => s.courseId == courseId;
    FilterFacts(all, inCourse);
    Filter(all, inCourse)
  }

  /** `listSessionsByCourseIds`: membership in `new Set(courseIds)` is
      membership in the list. */
  function ListSessionsByCourseIds(all: seq<ClassSession>, courseIds: seq<string>): (r: seq<ClassSession>)
    ensures IsSubsequence(r, all)
    ensures forall s :: s in r <==> s in all && s.courseId in courseIds
    ensures forall s :: multiset(r)[s] == if s.courseId in courseIds then multiset(all)[s] else 0
  {
    var inCourses := (s: ClassSession) => s.courseId in courseIds;
    FilterFacts(all, inCourses);
    Filter(all, inCourses)
  }

  /** `createSession` of the schedule: appends the payload stamped with the
      supplied id and creation time, and no `updatedAt`. */
  function CreateClassSession(all: seq<ClassSession>, payload: SessionPayload, id: string, now: int)
    : (r: Step<seq<ClassSession>, ClassSession>)
    ensures r.next == all + [r.out]
    ensures PayloadOf(r.out) == payload
    ensures r.out.id == id && r.out.createdAt == now && r.out.updatedAt.None?
  {
    var item := ClassSession(id, payload.courseId, payload.courseName, payload.professorId,
                             payload.subject, payload.date, payload.startTime, payload.endTime,
                             payload.notes, payload.canceled, now, None);
    Step(all + [item], item)
  }

  /** `{ ...session, ...updates, updatedAt: now }`: the stamp is written last,
      so it wins over any `updatedAt` the patch carries. */
  function MergeSession(s: ClassSession, p: SessionPatch, now: int): (r: ClassSession)
    ensures r.updatedAt == Some(now)
    ensures Spread(p.id, s.id, r.id) && Spread(p.courseId, s.courseId, r.courseId)
    ensures Spread(p.courseName, s.courseName, r.courseName) && Spread(p.professorId, s.professorId, r.professorId)
    ensures Spread(p.subject, s.subject, r.subject) && Spread(p.date, s.date, r.date)
    ensures Spread(p.startTime, s.startTime, r.startTime) && Spread(p.endTime, s.endTime, r.endTime)
    ensures Spread(p.notes, s.notes, r.notes) && Spread(p.canceled, s.canceled, r.canceled)
    ensures Spread(p.createdAt, s.createdAt, r.createdAt)
  {
    ClassSession(
      Pick(p.id, s.id),
      Pick(p.courseId, s.courseId),
      Pick(p.courseName, s.courseName),
      Pick(p.professorId, s.professorId),
      Pick(p.subject, s.subject),
      Pick(p.date, s.date),
      Pick(p.startTime, s.startTime),
      Pick(p.endTime, s.endTime),
      Pick(p.notes, s.notes),
      Pick(p.canceled, s.canceled),
      Pick(p.createdAt, s.createdAt),
      Some(now))
  }

  /** `updateSession`: merges the patch into the first session with that id
      and leaves every other position alone; fails with "Session not found",
      writing nothing, when no session has the id. */
  function UpdateSession(all: seq<ClassSession>, id: string, patch: SessionPatch, now: int)
    : (r: Step<seq<ClassSession>, Result<ClassSession>>)
    ensures FirstIndexOf(all, SessionId, id).None? <==> r == Step(all, Failure(SessionNotFoundMessage))
    ensures FirstIndexOf(all, SessionId, id).Some? ==>
      var i := FirstIndexOf(all, SessionId, id).value;
      && r.out == Success(MergeSession(all[i], patch, now))
      && |r.next| == |all|
      && r.next[i] == r.out.value
      && forall j :: 0 <= j < |all| && j != i ==> r.next[j] == all[j]
  {
    UpdateFirst(all, SessionId, id, (s: ClassSession) => MergeSession(s, patch, now), SessionNotFoundMessage)
  }

  /** `cancelSession`: a soft delete. The session stays where it is, flagged
      as canceled and stamped, with every other property unchanged. */
  function CancelSession(all: seq<ClassSession>, id: string, now: int)
    : (r: Step<seq<ClassSession>, Result<ClassSession>>)
    ensures FirstIndexOf(all, SessionId, id).None? <==> r == Step(all, Failure(SessionNotFoundMessage))
    ensures FirstIndexOf(all, SessionId, id).Some? ==>
      var i := FirstIndexOf(all, SessionId, id).value;
      && r.out == Success(all[i].(canceled := Some(true), updatedAt := Some(now)))
      && r.next == all[i := r.out.value]
  {
    UpdateSession(all, id, CancelPatch, now)
  }

  /** `deleteSession`: every session with that id goes, the rest keep their
      order; an unknown id changes nothing. */
  function DeleteSession(all: seq<ClassSession>, id: string): (r: seq<ClassSession>)
    ensures IsSubsequence(r, all)
    ensures forall s :: s in r <==> s in all && s.id != id
    ensures forall s :: multiset(r)[s] == if s.id != id then multiset(all)[s] else 0
    ensures (forall j :: 0 <= j < |all| ==> all[j].id != id) ==> r == all
  {
    RemoveAll(all, SessionId, id)
  }
}

/** A run through the stores from an empty browser: a professor and a
    student register, the professor opens a course, the student joins it
    with the code, an assignment is posted, answered and graded. */
module Scenario {
  import opened Outcomes
  import opened Seqs
  import opened Text
  import opened UserStorage
  import opened CourseStorage
  import CourseStorageProperties
  import opened AssignmentStorage
  import opened SubmissionStorage

  const Empty := UserState(None, map[], None)
  const ProfessorData := UserData("prof@x.com", "prof123", Professor, "Prof", "School of AI")
  const StudentData := UserData("stud@x.com", "student123", Student, "Stud", "School of AI")

  /** Both registrations succeed next to the seeded administrator. */
  lemma RegistrationsSucceed(profId: string, studentId: string, t1: int, t3: int)
    ensures var prof := CreateUser(Empty, ProfessorData, profId, t1);
      && prof.out.Success?
      && CreateUser(prof.next, StudentData, studentId, t3).out.Success?
      && CreateUser(prof.next, StudentData, studentId, t3).out.value.id == studentId
  {
    var admin := DefaultAdmin(t1);
    assert Lower(admin.email)[0] == 'a' && Lower(ProfessorData.email)[0] == 'p';
    var prof := CreateUser(Empty, ProfessorData, profId, t1);
    assert prof.out.Success?;
    var users := GetAllUsers(prof.next, t3).out;
    assert users == [admin, prof.out.value];
    assert Lower(StudentData.email)[0] == 's';
  }

  /** A stored code, typed back exactly, matches its course. */
  lemma OwnCodeMatches(course: Course)
    requires WellFormedCode(course.code)
    ensures CodeMatches(course, course.code)
  {
    var code := course.code;
    CourseStorageProperties.WellFormedCodeIsUpper(code);
    forall k | 0 <= k < |code|
      ensures !IsTrimmable(code[k])
    {
      CodeSymbolIsPlain(code[k]);
    }
    TrimPadded("", code, "");
    assert "" + code + "" == code;
  }

  /** A store holding one new course whose code matches itself: typing
      that code back enrols the student as the course's only member. */
  lemma JoinOnlyCourse(created: Step<seq<Course>, Course>, student: User)
    requires created.next == [created.out]
    requires CodeMatches(created.out, created.out.code) && created.out.studentIds == []
    ensures var joined := JoinCourseByCode(created.next, created.out.code, student);
      && joined.out.Success?
      && joined.out.value.studentIds == [student.id]
      && joined.next == [joined.out.value]
  {
    OnlyCourseMatches(created.out, created.out.code);
    JoinMatchedCourse(created.out, created.out.code, student);
  }

  lemma OnlyCourseMatches(course: Course, code: string)
    requires CodeMatches(course, code)
    ensures MatchIndex([course], code) == Some(0)
  {
    assert [course][0] == course;
  }

  lemma JoinMatchedCourse(course: Course, code: string, student: User)
    requires MatchIndex([course], code) == Some(0) && course.studentIds == []
    ensures var joined := JoinCourseByCode([course], code, student);
      && joined.out.Success?
      && joined.out.value.studentIds == [student.id]
      && joined.next == [joined.out.value]
  {
    var joined := course.(studentIds := [student.id]);
    assert course.studentIds + [student.id] == [student.id];
    assert [course][0 := joined] == [joined];
  }

  /** Registration, course creation and enrolment: both registrations
      succeed, the course gets a well-formed code, and joining with that
      code lists exactly the student. */
  lemma Enrolment(profId: string, studentId: string, courseId: string, candidates: seq<seq<Draw>>,
                  t1: int, t2: int, t3: int)
    requires OracleTerminates([], candidates)
    ensures var prof := CreateUser(Empty, ProfessorData, profId, t1);
      prof.out.Success? &&
      var course := CreateCourse([], prof.out.value, CourseInput("Algo", "CS"), candidates, courseId, t2);
      var stud := CreateUser(prof.next, StudentData, studentId, t3);
      && WellFormedCode(course.out.code)
      && stud.out.Success?
      && var joined := JoinCourseByCode(course.next, course.out.code, stud.out.value);
      && joined.out.Success?
      && joined.out.value.studentIds == [studentId]
      && joined.next == [joined.out.value]
  {
    RegistrationsSucceed(profId, studentId, t1, t3);
    var prof := CreateUser(Empty, ProfessorData, profId, t1);
    var stud := CreateUser(prof.next, StudentData, studentId, t3);
    var course := CreateCourse([], prof.out.value, CourseInput("Algo", "CS"), candidates, courseId, t2);
    assert course.next == [course.out];
    OwnCodeMatches(course.out);
    JoinOnlyCourse(course, stud.out.value);
  }

  /** Posting, answering and grading: the assignment's only submission is
      the student's, and grading it with 95 changes the grade and nothing
      else, in the returned and in the stored record. */
  lemma Grading(course: Course, studentId: string, assignmentId: string, submissionId: string,
                file: string, t4: int, t5: int)
    ensures var posted := CreateAssignment([], AssignmentInput(course.id, course.professorId, course.professorName,
                                                              "Homework 1", "hw1.pdf", "application/pdf", file, "2030-01-01"),
                                           assignmentId, t4);
      var answer := SubmissionInput(posted.out.id, course.id, studentId, "Stud", "answer.pdf", "application/pdf",
                                    file, None, None);
      var submitted := CreateSubmission([], answer, submissionId, t5);
      var listed := ListSubmissionsByAssignment(submitted.next, assignmentId);
      var graded := UpdateSubmission(submitted.next, submissionId,
                                     SubmissionPatch(None, None, None, None, None, None, None, None, None,
                                                     Some(Some(95.0)), None));
      && listed == [submitted.out]
      && listed[0].studentId == studentId
      && graded.out == Success(submitted.out.(grade := Some(95.0)))
      && graded.next == [graded.out.value]
  {
    var posted := CreateAssignment([], AssignmentInput(course.id, course.professorId, course.professorName,
                                                      "Homework 1", "hw1.pdf", "application/pdf", file, "2030-01-01"),
                                   assignmentId, t4);
    var answer := SubmissionInput(posted.out.id, course.id, studentId, "Stud", "answer.pdf", "application/pdf",
                                  file, None, None);
    var submitted := CreateSubmission([], answer, submissionId, t5);
    var listed := ListSubmissionsByAssignment(submitted.next, assignmentId);
    assert submitted.out in listed;
    assert |listed| <= 1 by {
      assert multiset(listed)[submitted.out] == 1;
      assert forall s :: s in listed ==> s == submitted.out;
      assert multiset(listed) == multiset{submitted.out};
    }
    assert FirstIndexOf(submitted.next, SubmissionId, submissionId) == Some(0);
  }
}

/** Properties of the course store across calls: code uniqueness, lookup
    by code regardless of case and padding, and idempotent enrolment. */
module CourseStorageProperties {
  import opened Outcomes
  import opened Seqs
  import opened Text
  import UserStorage
  import opened CourseStorage

  function CodeOf(c: Course): string
  {
    c.code
  }

  /** What the course store keeps true: codes well formed and pairwise
      distinct, and no course lists a student twice. */
  ghost predicate CoursesValid(courses: seq<Course>)
  {
    && DistinctBy(courses, CodeOf)
    && (forall i :: 0 <= i < |courses| ==> WellFormedCode(courses[i].code))
    && (forall i :: 0 <= i < |courses| ==> NoDuplicates(courses[i].studentIds))
  }

  /** `createCourse` keeps the store valid: the new code is fresh and well
      formed, and the new course has no students. */
  lemma CreateCourseKeepsValid(courses: seq<Course>, professor: UserStorage.User, input: CourseInput,
                               candidates: seq<seq<Draw>>, id: string, now: int)
    requires OracleTerminates(courses, candidates)
    requires CoursesValid(courses)
    ensures CoursesValid(CreateCourse(courses, professor, input, candidates, id, now).next)
  {
    var r := CreateCourse(courses, professor, input, candidates, id, now);
    var all := r.next;
    forall i | 0 <= i < |all|
      ensures WellFormedCode(all[i].code) && NoDuplicates(all[i].studentIds)
    {
      if i < |courses| {
        assert all[i] == courses[i];
      } else {
        assert all[i] == r.out;
      }
    }
    forall i, j | 0 <= i < j < |all|
      ensures CodeOf(all[i]) != CodeOf(all[j])
    {
      assert all[i] == courses[i];
      if j < |courses| {
        assert all[j] == courses[j];
      } else {
        assert all[j] == r.out;
      }
    }
  }

  /** A course created under an unused id is found by that id and listed
      among its professor's courses. */
  lemma CreatedCourseFound(courses: seq<Course>, professor: UserStorage.User, input: CourseInput,
                           candidates: seq<seq<Draw>>, id: string, now: int)
    requires OracleTerminates(courses, candidates)
    requires forall j :: 0 <= j < |courses| ==> courses[j].id != id
    ensures var r := CreateCourse(courses, professor, input, candidates, id, now);
      && GetCourseById(r.next, id) == Some(r.out)
      && r.out in GetCoursesByProfessor(r.next, professor.id)
  {
    var r := CreateCourse(courses, professor, input, candidates, id, now);
    assert forall j :: 0 <= j < |courses| ==> r.next[j] == courses[j];
    assert r.next[|courses|] == r.out;
  }

  /** A well-formed code is its own upper-case form. */
  lemma WellFormedCodeIsUpper(code: string)
    requires WellFormedCode(code)
    ensures Upper(code) == code
  {
    forall k | 0 <= k < |code|
      ensures !IsAsciiLower(code[k])
    {
      CodeSymbolIsPlain(code[k]);
    }
    UpperOfUpper(code);
  }

  /** In a valid store a query matches at most one course. */
  lemma CodeMatchesAtMostOne(courses: seq<Course>, query: string, i: int, j: int)
    requires CoursesValid(courses)
    requires 0 <= i < |courses| && 0 <= j < |courses|
    requires CodeMatches(courses[i], query) && CodeMatches(courses[j], query)
    ensures i == j
  {
    WellFormedCodeIsUpper(courses[i].code);
    WellFormedCodeIsUpper(courses[j].code);
  }

  /** A student may type a stored code in lower case and with surrounding
      blanks: the lookup still finds exactly that course. */
  lemma LookupIgnoresCaseAndPadding(courses: seq<Course>, i: int, pre: string, post: string)
    requires CoursesValid(courses) && 0 <= i < |courses|
    requires AllTrimmable(pre) && AllTrimmable(post)
    ensures GetCourseByCode(courses, pre + Lower(courses[i].code) + post) == Some(courses[i])
  {
    var code := courses[i].code;
    var typed := pre + Lower(code) + post;
    forall k | 0 <= k < |code|
      ensures !IsTrimmable(Lower(code)[k])
    {
      CodeSymbolIsPlain(code[k]);
    }
    TrimPadded(pre, Lower(code), post);
    UpperOfLower(code);
    WellFormedCodeIsUpper(code);
    assert CodeMatches(courses[i], typed);
    CodeMatchesAtMostOne(courses, typed, i, MatchIndex(courses, typed).value);
  }

  /** Which course a code selects depends on the stored codes alone. */
  lemma MatchIndexReadsCodesOnly(a: seq<Course>, b: seq<Course>, code: string)
    requires |a| == |b| && forall j :: 0 <= j < |a| ==> a[j].code == b[j].code
    ensures MatchIndex(a, code) == MatchIndex(b, code)
  {
    forall j | 0 <= j < |a|
      ensures CodeMatches(a[j], code) == CodeMatches(b[j], code)
    {
      assert Upper(a[j].code) == Upper(b[j].code);
    }
    var ma, mb := MatchIndex(a, code), MatchIndex(b, code);
    if ma.Some? {
      assert CodeMatches(b[ma.value], code);
      assert mb.Some? && mb.value <= ma.value;
    } else {
      assert mb.None?;
    }
  }

  /** Joining keeps the store valid: codes are untouched and an id is only
      appended when it is not already listed. */
  lemma JoinKeepsValid(courses: seq<Course>, code: string, student: UserStorage.User)
    requires CoursesValid(courses)
    ensures CoursesValid(JoinCourseByCode(courses, code, student).next)
  {
    var r := JoinCourseByCode(courses, code, student);
    if MatchIndex(courses, code).Some? && r.next != courses {
      var i := MatchIndex(courses, code).value;
      var joined := r.out.value;
      assert r.next == courses[i := joined];
      assert joined.code == courses[i].code;
      assert NoDuplicates(joined.studentIds) by {
        var ids := courses[i].studentIds;
        assert joined.studentIds == ids + [student.id];
        assert student.id !in ids;
      }
      ReplaceKeepsValid(courses, i, joined);
    }
  }

  /** Replacing a course by one with the same code and a duplicate-free
      student list keeps the store valid. */
  lemma ReplaceKeepsValid(courses: seq<Course>, i: nat, c: Course)
    requires CoursesValid(courses) && i < |courses|
    requires c.code == courses[i].code && NoDuplicates(c.studentIds)
    ensures CoursesValid(courses[i := c])
  {
    var all := courses[i := c];
    forall a, b | 0 <= a < b < |all|
      ensures CodeOf(all[a]) != CodeOf(all[b])
    {
      assert CodeOf(all[a]) == CodeOf(courses[a]) && CodeOf(all[b]) == CodeOf(courses[b]);
    }
    forall j | 0 <= j < |all|
      ensures WellFormedCode(all[j].code) && NoDuplicates(all[j].studentIds)
    {
      if j != i {
        assert all[j] == courses[j];
      }
    }
  }

  /** Joining is idempotent: a second join with the same code by the same
      student writes nothing and returns the same course. */
  lemma JoinIdempotent(courses: seq<Course>, code: string, student: UserStorage.User)
    requires JoinCourseByCode(courses, code, student).out.Success?
    ensures var first := JoinCourseByCode(courses, code, student);
      JoinCourseByCode(first.next, code, student) == Step(first.next, first.out)
  {
    var first := JoinCourseByCode(courses, code, student);
    var i := MatchIndex(courses, code).value;
    assert |first.next| == |courses| && forall j :: 0 <= j < |courses| ==> first.next[j].code == courses[j].code;
    MatchIndexReadsCodesOnly(first.next, courses, code);
    assert first.next[i] == first.out.value;
  }

  /** The id occurs at exactly one position. */
  ghost predicate ListedOnce(ids: seq<string>, id: string)
  {
    exists k :: 0 <= k < |ids| && ids[k] == id && forall m :: 0 <= m < |ids| && ids[m] == id ==> m == k
  }

  lemma ListedOnceWithoutDuplicates(ids: seq<string>, id: string)
    requires NoDuplicates(ids) && id in ids
    ensures ListedOnce(ids, id)
  {
    var k :| 0 <= k < |ids| && ids[k] == id;
    assert forall m :: 0 <= m < |ids| && ids[m] == id ==> m == k;
  }

  /** Joining twice leaves the student's id in the course exactly once. */
  lemma JoinTwiceListsOnce(courses: seq<Course>, code: string, student: UserStorage.User)
    requires CoursesValid(courses)
    requires JoinCourseByCode(courses, code, student).out.Success?
    ensures var first := JoinCourseByCode(courses, code, student);
      var second := JoinCourseByCode(first.next, code, student);
      second.out.Success? && ListedOnce(second.out.value.studentIds, student.id)
  {
    var first := JoinCourseByCode(courses, code, student);
    JoinIdempotent(courses, code, student);
    JoinKeepsValid(courses, code, student);
    var i := MatchIndex(courses, code).value;
    assert first.next[i] == first.out.value;
    assert NoDuplicates(first.next[i].studentIds);
    ListedOnceWithoutDuplicates(first.out.value.studentIds, student.id);
  }
}

/** The course store (src/lib/courseStorage.ts): courses under the
    `learnflow_courses` key, each with a six-symbol join code that students
    type in to enrol.

    `Math.random()` is replaced by caller-supplied draws: one draw is the
    fraction `num / den` in [0, 1), six draws spell one code, and the re-roll
    loop consumes a sequence of such six-draw candidates. */
module CourseStorage {
  import opened Outcomes
  import opened Seqs
  import opened Text
  import UserStorage

  /** `Course`; `createdAt` is the creation time in milliseconds. */
  datatype Course = Course(
    id: string,
    code: string,
    name: string,
    subject: string,
    professorId: string,
    professorName: string,
    createdAt: int,
    studentIds: seq<string>)

  /** `CreateCourseInput`. */
  datatype CourseInput = CourseInput(name: string, subject: string)

  /** The symbols a join code is drawn from: upper-case letters and digits
      without I, L, O, Y, 0 and 1. */
  const CodeAlphabet := "ABCDEFGHJKMNPQRSTUVWXZ23456789"
  const CodeLength := 6
  const InvalidCodeMessage := "Invalid course code"

  /** One result of `Math.random()`: the fraction `num / den`. */
  datatype Draw = Draw(num: nat, den: nat)

  /** `Math.random()` lies in [0, 1). */
  predicate ValidDraw(d: Draw)
  {
    d.num < d.den
  }

  /** `Math.floor(Math.random() * chars.length)`. */
  function AlphabetIndex(d: Draw): (i: nat)
    requires ValidDraw(d)
    ensures i < |CodeAlphabet|
  {
    var n := |CodeAlphabet|;
    assert d.num * n < d.den * n;
    d.num * n / d.den
  }

  /** A full set of draws for one call of `generateCourseCode`. */
  predicate ValidCandidate(draws: seq<Draw>)
  {
    |draws| == CodeLength && forall i :: 0 <= i < |draws| ==> ValidDraw(draws[i])
  }

  /** A code `generateCourseCode` can produce: six code symbols
      (`WellFormedCodeInAlphabet` shows these are the alphabet's symbols). */
  predicate WellFormedCode(code: string)
  {
    |code| == CodeLength && forall k :: 0 <= k < |code| ==> IsCodeSymbol(code[k])
  }

  /** One alphabet symbol per draw, in draw order. */
  function Spell(draws: seq<Draw>): (code: string)
    requires forall i :: 0 <= i < |draws| ==> ValidDraw(draws[i])
    ensures |code| == |draws|
    ensures forall k :: 0 <= k < |code| ==> code[k] == CodeAlphabet[AlphabetIndex(draws[k])]
  {
    if draws == [] then ""
    else [CodeAlphabet[AlphabetIndex(draws[0])]] + Spell(draws[1..])
  }

  /** `generateCourseCode`. */
  function GenerateCourseCode(draws: seq<Draw>): (code: string)
    requires ValidCandidate(draws)
    ensures WellFormedCode(code)
    ensures forall k :: 0 <= k < |code| ==> code[k] in CodeAlphabet
  {
    AlphabetFacts();
    Spell(draws)
  }

  /** The symbols the alphabet is meant to hold: upper-case letters and
      digits other than the look-alikes I, L, O, Y, 0 and 1. */
  predicate IsCodeSymbol(c: char)
  {
    || ('A' <= c <= 'Z' && c != 'I' && c != 'L' && c != 'O' && c != 'Y')
    || ('2' <= c <= '9')
  }

  /** The alphabet has 30 symbols, all of them code symbols: 22 letters in
      increasing order followed by 8 digits in increasing order. */
  lemma AlphabetFacts()
    ensures |CodeAlphabet| == 30
    ensures forall i :: 0 <= i < |CodeAlphabet| ==> IsCodeSymbol(CodeAlphabet[i])
    ensures forall i :: 0 <= i < 22 ==> IsAsciiUpper(CodeAlphabet[i])
    ensures forall i :: 22 <= i < 30 ==> '2' <= CodeAlphabet[i] <= '9'
    ensures forall i :: 0 <= i < 29 && i != 21 ==> CodeAlphabet[i] < CodeAlphabet[i + 1]
  {
  }

  /** Conversely, every code symbol is in the alphabet, so the alphabet is
      exactly the code symbols. */
  lemma AlphabetComplete(c: char)
    requires IsCodeSymbol(c)
    ensures c in CodeAlphabet
  {
    if '2' <= c <= '9' {
      assert c == CodeAlphabet[(c as int - '2' as int) + 22];
    } else if c <= 'H' {
      assert c == CodeAlphabet[c as int - 'A' as int];
    } else if c <= 'K' {
      assert c == CodeAlphabet[c as int - 'A' as int - 1];
    } else if c <= 'N' {
      assert c == CodeAlphabet[c as int - 'A' as int - 2];
    } else if c <= 'X' {
      assert c == CodeAlphabet[c as int - 'A' as int - 3];
    } else {
      assert c == CodeAlphabet[21];
    }
  }

  /** No symbol occurs twice in the alphabet. */
  lemma {:induction false} AlphabetDistinct()
    ensures NoDuplicates(CodeAlphabet)
  {
    AlphabetFacts();
    forall i, j | 0 <= i < j < |CodeAlphabet|
      ensures CodeAlphabet[i] != CodeAlphabet[j]
    {
      if j < 22 || 22 <= i {
        var k := i;
        while k < j
          invariant i <= k <= j
          invariant k > i ==> CodeAlphabet[i] < CodeAlphabet[k]
        {
          k := k + 1;
        }
      }
    }
  }

  /** A code symbol is neither lower-case nor trimmable, so codes survive
      `toUpperCase` and `trim` unchanged. */
  lemma CodeSymbolIsPlain(c: char)
    requires IsCodeSymbol(c)
    ensures IsAsciiUpper(c) || '2' <= c <= '9'
    ensures !IsAsciiLower(c) && !IsTrimmable(c)
  {
  }

  /** A well-formed code is exactly six symbols of the alphabet. */
  lemma WellFormedCodeInAlphabet(code: string)
    ensures WellFormedCode(code) <==>
      |code| == CodeLength && forall k :: 0 <= k < |code| ==> code[k] in CodeAlphabet
  {
    AlphabetFacts();
    if WellFormedCode(code) {
      forall k | 0 <= k < |code| ensures code[k] in CodeAlphabet {
        AlphabetComplete(code[k]);
      }
    }
  }

  /** `new Set(courses.map(c => c.code))`. */
  function ExistingCodes(courses: seq<Course>): (codes: set<string>)
    ensures forall c :: c in courses ==> c.code in codes
    ensures forall code :: code in codes ==> exists i :: 0 <= i < |courses| && courses[i].code == code
  {
    set c | c in courses :: c.code
  }

  /** The re-roll loop: the first candidate whose code is not taken. It is
      only defined when such a candidate exists, which is exactly when the
      original loop terminates on the given random values. */
  function PickCode(candidates: seq<seq<Draw>>, taken: set<string>): (code: string)
    requires forall i :: 0 <= i < |candidates| ==> ValidCandidate(candidates[i])
    requires exists i :: 0 <= i < |candidates| && GenerateCourseCode(candidates[i]) !in taken
    ensures code !in taken
    ensures WellFormedCode(code)
    ensures exists k ::
      (0 <= k < |candidates| && code == GenerateCourseCode(candidates[k])
       && forall j :: 0 <= j < k ==> GenerateCourseCode(candidates[j]) in taken)
  {
    var first := GenerateCourseCode(candidates[0]);
    if first !in taken then first
    else
      var code := PickCode(candidates[1..], taken);
      assert forall k :: 1 <= k < |candidates| ==> candidates[1..][k - 1] == candidates[k];
      code
  }

  /** The caller-supplied random values let the re-roll loop stop. */
  predicate OracleTerminates(courses: seq<Course>, candidates: seq<seq<Draw>>)
  {
    && (forall i :: 0 <= i < |candidates| ==> ValidCandidate(candidates[i]))
    && exists i :: 0 <= i < |candidates| && GenerateCourseCode(candidates[i]) !in ExistingCodes(courses)
  }

  /** `createCourse`: appends a course with a code no stored course has,
      owned by `professor`, with no students. */
  function CreateCourse(courses: seq<Course>, professor: UserStorage.User, input: CourseInput,
                        candidates: seq<seq<Draw>>, id: string, now: int): (r: Step<seq<Course>, Course>)
    requires OracleTerminates(courses, candidates)
    ensures r.next == courses + [r.out]
    ensures forall i :: 0 <= i < |courses| ==> courses[i].code != r.out.code
    ensures WellFormedCode(r.out.code)
    ensures r.out.id == id && r.out.createdAt == now
    ensures r.out.name == input.name && r.out.subject == input.subject
    ensures r.out.professorId == professor.id && r.out.professorName == professor.name
    ensures r.out.studentIds == []
  {
    var code := PickCode(candidates, ExistingCodes(courses));
    var course := Course(id, code, input.name, input.subject, professor.id, professor.name, now, []);
    Step(courses + [course], course)
  }

  /** `getCoursesByProfessor`. */
  function GetCoursesByProfessor(courses: seq<Course>, professorId: string): (r: seq<Course>)
    ensures IsSubsequence(r, courses)
    ensures forall c :: c in r <==> c in courses && c.professorId == professorId
    ensures forall c :: multiset(r)[c] == if c.professorId == professorId then multiset(courses)[c] else 0
  {
    var owned := (c: Course) => c.professorId == professorId;
    FilterFacts(courses, owned);
    Filter(courses, owned)
  }

  /** `getCourseById`: the first course with that id, or null. */
  function GetCourseById(courses: seq<Course>, id: string): (r: Option<Course>)
    ensures r.None? <==> forall j :: 0 <= j < |courses| ==> courses[j].id != id
    ensures r.Some? ==> exists i ::
      (0 <= i < |courses| && courses[i] == r.value && courses[i].id == id
       && forall j :: 0 <= j < i ==> courses[j].id != id)
  {
    Find(courses, (c: Course) => c.id == id)
  }

  /** `code.trim().toUpperCase()`: the upper-cased middle of the query,
      with only blanks cut off its two ends, so it has no lower-case letter
      and no blank at either end. */
  function NormalizeCode(code: string): (r: string)
    ensures |r| <= |code|
    ensures exists i, j ::
      (0 <= i <= j <= |code| && r == Upper(code[i..j])
       && AllTrimmable(code[..i]) && AllTrimmable(code[j..]))
    ensures forall i :: 0 <= i < |r| ==> !IsAsciiLower(r[i])
    ensures r != [] ==> !IsTrimmable(r[0]) && !IsTrimmable(r[|r| - 1])
  {
    var t := Trim(code);
    UpperHasNoLower(t);
    UpperKeepsBlankEnds(t);
    Upper(t)
  }

  /** Upper-casing before trimming would normalize the query the same way. */
  lemma NormalizeCodeUpperFirst(code: string)
    ensures NormalizeCode(code) == Trim(Upper(code))
  {
    TrimUpperCommute(code);
  }

  /** Normalizing a normalized query changes nothing, so a code typed in its
      normalized form is compared as typed. */
  lemma NormalizeCodeIdempotent(code: string)
    ensures NormalizeCode(NormalizeCode(code)) == NormalizeCode(code)
  {
    var n := NormalizeCode(code);
    if n != [] {
      TrimPadded("", n, "");
      assert "" + n + "" == n;
    }
    UpperOfUpper(n);
  }

  /** The lookup test shared by `getCourseByCode` and `joinCourseByCode`. */
  predicate CodeMatches(c: Course, code: string)
  {
    Upper(c.code) == NormalizeCode(code)
  }

  /** The position `findIndex` reports for a code: the first course whose
      upper-cased code equals the trimmed, upper-cased query. */
  function MatchIndex(courses: seq<Course>, code: string): (r: Option<nat>)
    ensures r.None? <==> forall j :: 0 <= j < |courses| ==> !CodeMatches(courses[j], code)
    ensures r.Some? ==>
      (r.value < |courses| && CodeMatches(courses[r.value], code)
       && forall j :: 0 <= j < r.value ==> !CodeMatches(courses[j], code))
  {
    FindIndex(courses, (c: Course) => CodeMatches(c, code))
  }

  /** `getCourseByCode`: the first course the code matches, or null. */
  function GetCourseByCode(courses: seq<Course>, code: string): (r: Option<Course>)
    ensures r.None? <==> forall j :: 0 <= j < |courses| ==> !CodeMatches(courses[j], code)
    ensures r.Some? ==> MatchIndex(courses, code).Some? && r.value == courses[MatchIndex(courses, code).value]
  {
    Find(courses, (c: Course) => CodeMatches(c, code))
  }

  /** `joinCourseByCode`: enrols the student in the first course the code
      matches, appending the id only when it is not already there; fails with
      "Invalid course code", writing nothing, when no course matches. */
  function JoinCourseByCode(courses: seq<Course>, code: string, student: UserStorage.User)
    : (r: Step<seq<Course>, Result<Course>>)
    ensures MatchIndex(courses, code).None? <==> r == Step(courses, Failure(InvalidCodeMessage))
    ensures MatchIndex(courses, code).Some? ==>
      var i := MatchIndex(courses, code).value;
      var c := courses[i];
      && r.out.Success?
      && student.id in r.out.value.studentIds
      && (student.id in c.studentIds ==> r == Step(courses, Success(c)))
      && (student.id !in c.studentIds ==>
            && r.out.value == c.(studentIds := c.studentIds + [student.id])
            && r.next == courses[i := r.out.value])
  {
    match MatchIndex(courses, code)
    case None => Step(courses, Failure(InvalidCodeMessage))
    case Some(i) =>
      var course := courses[i];
      if student.id in course.studentIds then Step(courses, Success(course))
      else
        var joined := course.(studentIds := course.studentIds + [student.id]);
        Step(courses[i := joined], Success(joined))
  }

  /** `listAllCourses`: the stored collection, in storage order. */
  function ListAllCourses(courses: seq<Course>): (r: seq<Course>)
    ensures r == courses
  {
    courses
  }
}

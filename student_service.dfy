/** The student service: enrolling, grading, GPA, the cascading removal of a
    course code, searching and the sorted listing. It reads and changes the
    live objects the two repositories hold. */
module StudentService {
  import opened Common
  import opened Text
  import opened Model
  import opened StudentRepository
  import opened CourseRepository
  import opened Grading

  // ----- The state the service reads -----

  /** Every enrollment object some stored student holds. */
  ghost function EnrollmentObjects(students: seq<Student>): (r: set<Enrollment>)
    reads students
    ensures forall s, e :: s in students && e in s.enrollments ==> e in r
  {
    set s, e | s in students && e in s.enrollments :: e
  }

  /** The invariant the service keeps: no student holds two enrollments for one
      course code, and every grade lies in [0.0, 10.0]. */
  ghost predicate Consistent(students: seq<Student>)
    reads students, EnrollmentObjects(students)
  {
    forall s :: s in students ==> UniqueCodes(s.enrollments) && GradesValid(s.enrollments)
  }

  /** The GPA `CalculateGpaAsync(id)` reports: 0 when no student has the id or
      the first one with it has no enrollments, otherwise the credit-weighted
      mean over that student's enrollments whose course still resolves (0 when
      their credits add up to zero). */
  ghost function StudentGpa(students: seq<Student>, courses: seq<Course>, id: int): real
    reads students, EnrollmentObjects(students), courses
  {
    var s := FindById(students, id);
    if s == null || s.enrollments == [] then 0.0 else Gpa(Resolved(s.enrollments, courses))
  }

  /** The GPA of each student of `ss` in turn, each looked up by its id in `all`. */
  ghost function Gpas(ss: seq<Student>, all: seq<Student>, courses: seq<Course>): (r: seq<real>)
    reads all, EnrollmentObjects(all), courses
    ensures |r| == |ss|
  {
    if ss == [] then []
    else Gpas(ss[..|ss| - 1], all, courses) + [StudentGpa(all, courses, ss[|ss| - 1].id)]
  }

  /** The value `GetSchoolAverageGpaAsync` reports: the mean of every stored
      student's GPA, or 0 when there are no students. */
  ghost function SchoolAverage(students: seq<Student>, courses: seq<Course>): real
    reads students, EnrollmentObjects(students), courses
  {
    var gpas := Gpas(students, students, courses);
    if gpas == [] then 0.0 else Average(gpas)
  }

  /** While the invariant holds and every course has positive credits, every
      GPA lies in [0, 10]. */
  lemma StudentGpaBounds(students: seq<Student>, courses: seq<Course>, id: int)
    requires Consistent(students) && CreditsPositive(courses)
    ensures 0.0 <= StudentGpa(students, courses, id) <= 10.0
  {
    var s := FindById(students, id);
    if s != null && s.enrollments != [] {
      ResolvedGradable(s.enrollments, courses);
      GpaBounds(Resolved(s.enrollments, courses));
    }
  }

  /** A student none of whose enrollments resolves to a stored course has GPA 0. */
  lemma NothingResolvedGpaZero(students: seq<Student>, courses: seq<Course>, id: int)
    requires FindById(students, id) != null
    requires var es := FindById(students, id).enrollments;
      forall i :: 0 <= i < |es| ==> FindByCode(courses, es[i].courseCode) == null
    ensures StudentGpa(students, courses, id) == 0.0
  {
    ResolvedNone(FindById(students, id).enrollments, courses);
  }

  /** Under the same conditions the school average lies in [0, 10]. */
  lemma SchoolAverageBounds(students: seq<Student>, courses: seq<Course>)
    requires Consistent(students) && CreditsPositive(courses)
    ensures 0.0 <= SchoolAverage(students, courses) <= 10.0
  {
    var gpas := Gpas(students, students, courses);
    if gpas != [] {
      forall i | 0 <= i < |gpas| ensures 0.0 <= gpas[i] <= 10.0 {
        GpasAt(students, students, courses, i);
        StudentGpaBounds(students, courses, students[i].id);
      }
      AverageBounds(gpas);
    }
  }

  /** The i-th GPA is that of the i-th student's id. */
  lemma {:induction false} GpasAt(ss: seq<Student>, all: seq<Student>, courses: seq<Course>, i: int)
    requires 0 <= i < |ss|
    ensures Gpas(ss, all, courses)[i] == StudentGpa(all, courses, ss[i].id)
  {
    if i < |ss| - 1 {
      GpasAt(ss[..|ss| - 1], all, courses, i);
    }
  }

  /** With unique ids, each student's entry in the school average is the GPA of
      that very student. (With duplicate ids, the first student with the id is
      averaged once per duplicate.) */
  lemma UniqueIdsOwnGpa(students: seq<Student>, courses: seq<Course>, i: int)
    requires forall j, k :: 0 <= j < k < |students| ==> students[j].id != students[k].id
    requires 0 <= i < |students|
    ensures Gpas(students, students, courses)[i]
         == if students[i].enrollments == [] then 0.0 else Gpa(Resolved(students[i].enrollments, courses))
  {
    GpasAt(students, students, courses, i);
    assert IndexOfId(students, students[i].id) == i;
  }

  /** Deleting a course stored once and removing its code from a student's
      enrollments leave the same GPA rows as the deletion alone: the cascade
      only cleans up entries the GPA already skips. */
  lemma CascadeKeepsGpaRows(es: seq<Enrollment>, courses: seq<Course>, code: string)
    requires AtMostOnce(courses, code)
    ensures Resolved(Without(es, code), RemoveFirstCode(courses, code))
         == Resolved(es, RemoveFirstCode(courses, code))
  {
    DeleteThenFindNothing(courses, code);
    UnresolvedIgnored(es, RemoveFirstCode(courses, code), code);
  }

  /** Replacing every student's enrollment list by the list it had before
      without one code (what `RemoveCourseFromAllStudents` does) keeps the
      service invariant when the lists before kept it. */
  lemma CascadeKeepsConsistent(students: seq<Student>, before: seq<seq<Enrollment>>, code: string)
    requires |before| == |students|
    requires forall j :: 0 <= j < |students| ==> UniqueCodes(before[j]) && GradesValid(before[j])
    requires forall j :: 0 <= j < |students| ==> students[j].enrollments == Without(before[j], code)
    ensures Consistent(students)
  {
    forall s | s in students ensures UniqueCodes(s.enrollments) && GradesValid(s.enrollments) {
      var j :| 0 <= j < |students| && students[j] == s;
      WithoutKeepsUniqueCodes(before[j], code);
      WithoutKeepsGradesValid(before[j], code);
    }
  }

  /** Filtering the enrollments keeps their grades valid. */
  lemma WithoutKeepsGradesValid(es: seq<Enrollment>, code: string)
    requires GradesValid(es)
    ensures GradesValid(Without(es, code))
  {
  }

  /** The enrollment `AssignGradeAsync` grades: the first one for the code held
      by the first student with the id; null when either is missing. */
  function GradeTarget(students: seq<Student>, id: int, code: string): (e: Enrollment?)
    reads students
    ensures e == null <==> FindById(students, id) == null || !HasEnrollment(FindById(students, id).enrollments, code)
    ensures e != null ==> e in FindById(students, id).enrollments && e.courseCode == code
  {
    var s := FindById(students, id);
    if s == null then null else FindEnrollment(s.enrollments, code)
  }

  // ----- Searching and sorting -----

  /** A student matches a term when the name or the email contains it, ignoring case. */
  predicate StudentMatches(s: Student, term: string)
    reads s
  {
    ContainsIgnoreCase(s.name, term) || ContainsIgnoreCase(s.email, term)
  }

  /** The students that match the term, in their original order. */
  function MatchingStudents(students: seq<Student>, term: string): (r: seq<Student>)
    reads students
    ensures forall i :: 0 <= i < |r| ==> r[i] in students && StudentMatches(r[i], term)
    ensures forall i :: 0 <= i < |students| && StudentMatches(students[i], term) ==> students[i] in r
    ensures IsSubsequence(r, students)
  {
    if students == [] then []
    else
      var rest := MatchingStudents(students[1..], term);
      if StudentMatches(students[0], term) then [students[0]] + rest else rest
  }

  /** `Where` keeps every matching student as many times as the list holds it,
      and no copy of one that does not match. */
  lemma {:induction false} MatchingCounts(students: seq<Student>, term: string)
    ensures forall x ::
      multiset(MatchingStudents(students, term))[x] ==
        if StudentMatches(x, term) then multiset(students)[x] else 0
  {
    if students != [] {
      MatchingCounts(students[1..], term);
      assert students == [students[0]] + students[1..];
    }
  }

  /** Names never decrease along the list. */
  ghost predicate SortedByName(ss: seq<Student>) {
    forall i, j :: 0 <= i < j < |ss| ==> NameLeq(ss[i].name, ss[j].name)
  }

  /** The students named `n`, in list order. */
  function WithName(ss: seq<Student>, n: string): seq<Student> {
    if ss == [] then []
    else (if ss[0].name == n then [ss[0]] else []) + WithName(ss[1..], n)
  }

  /** Puts `x` just before the first student whose name is not smaller. */
  function InsertByName(x: Student, ss: seq<Student>): seq<Student> {
    if ss == [] || NameLeq(x.name, ss[0].name) then [x] + ss
    else [ss[0]] + InsertByName(x, ss[1..])
  }

  /** `OrderBy(s => s.Name)`: a stable sort by name. */
  function SortByName(ss: seq<Student>): seq<Student> {
    if ss == [] then [] else InsertByName(ss[0], SortByName(ss[1..]))
  }

  lemma {:induction false} InsertPermutes(x: Student, ss: seq<Student>)
    ensures multiset(InsertByName(x, ss)) == multiset(ss) + multiset{x}
  {
    if ss != [] && !NameLeq(x.name, ss[0].name) {
      InsertPermutes(x, ss[1..]);
      assert ss == [ss[0]] + ss[1..];
    }
  }

  lemma {:induction false} InsertSorted(x: Student, ss: seq<Student>)
    requires SortedByName(ss)
    ensures SortedByName(InsertByName(x, ss))
  {
    var r := InsertByName(x, ss);
    if ss == [] {
    } else if NameLeq(x.name, ss[0].name) {
      forall j | 1 <= j < |r| ensures NameLeq(x.name, r[j].name) {
        if j > 1 { NameLeqTransitive(x.name, ss[0].name, r[j].name); }
      }
    } else {
      var rest := ss[1..];
      assert SortedByName(rest) by {
        forall i, j | 0 <= i < j < |rest| ensures NameLeq(rest[i].name, rest[j].name) {
          assert rest[i] == ss[i + 1] && rest[j] == ss[j + 1];
        }
      }
      InsertSorted(x, rest);
      InsertPermutes(x, rest);
      NameLeqTotal(x.name, ss[0].name);
      var tail := InsertByName(x, rest);
      forall j | 0 <= j < |tail| ensures NameLeq(ss[0].name, tail[j].name) {
        assert tail[j] in multiset(rest) + multiset{x};
        if tail[j] != x {
          assert tail[j] in rest;
          var k :| 0 <= k < |rest| && rest[k] == tail[j];
          assert ss[k + 1] == tail[j];
        }
      }
    }
  }

  lemma {:induction false} InsertStable(x: Student, ss: seq<Student>, n: string)
    ensures WithName(InsertByName(x, ss), n) == WithName([x] + ss, n)
  {
    if ss != [] && !NameLeq(x.name, ss[0].name) {
      InsertStable(x, ss[1..], n);
      var r := InsertByName(x, ss);
      assert r[1..] == InsertByName(x, ss[1..]);
      assert ([x] + ss[1..])[1..] == ss[1..];
      assert ([x] + ss)[1..] == ss;
      assert ss[0].name != x.name by {
        if ss[0].name == x.name {
          NameLeqTotal(x.name, x.name);
        }
      }
    }
  }

  /** The sorted list holds the same students, each as often as before. */
  lemma {:induction false} SortPermutes(ss: seq<Student>)
    ensures multiset(SortByName(ss)) == multiset(ss)
  {
    if ss != [] {
      SortPermutes(ss[1..]);
      InsertPermutes(ss[0], SortByName(ss[1..]));
      assert ss == [ss[0]] + ss[1..];
    }
  }

  /** The sorted list is in name order. */
  lemma {:induction false} SortSorted(ss: seq<Student>)
    ensures SortedByName(SortByName(ss))
  {
    if ss != [] {
      SortSorted(ss[1..]);
      InsertSorted(ss[0], SortByName(ss[1..]));
    }
  }

  /** Students with equal names keep their original relative order. */
  lemma {:induction false} SortStable(ss: seq<Student>, n: string)
    ensures WithName(SortByName(ss), n) == WithName(ss, n)
  {
    if ss != [] {
      SortStable(ss[1..], n);
      InsertStable(ss[0], SortByName(ss[1..]), n);
      assert ([ss[0]] + SortByName(ss[1..]))[1..] == SortByName(ss[1..]);
    }
  }

  // ----- The service -----

  /** The service over a student repository and a course repository. */
  class StudentService {
    const studentRepo: InMemoryStudentRepository
    const courseRepo: InMemoryCourseRepository

    constructor (studentRepo: InMemoryStudentRepository, courseRepo: InMemoryCourseRepository)
      ensures this.studentRepo == studentRepo && this.courseRepo == courseRepo
    {
      this.studentRepo := studentRepo;
      this.courseRepo := courseRepo;
    }

    /** Stores the student at the end of the list. */
    method AddStudent(student: Student)
      modifies studentRepo
      ensures studentRepo.students == old(studentRepo.students) + [student]
      ensures old(Consistent(studentRepo.students)) && UniqueCodes(student.enrollments) && GradesValid(student.enrollments) ==>
        Consistent(studentRepo.students)
    {
      studentRepo.Add(student);
    }

    /** Persisting a student changes nothing: the stored object is the live one. */
    method UpdateStudent(student: Student)
      ensures studentRepo.students == old(studentRepo.students)
    {
      studentRepo.Update(student);
    }

    /** Deletes the first student with the id, and with it the enrollments it
        owns; a no-op when no student has the id. */
    method RemoveStudent(id: int)
      modifies studentRepo
      ensures studentRepo.students == RemoveFirstId(old(studentRepo.students), id)
      ensures forall s :: s in studentRepo.students ==> s in old(studentRepo.students)
      ensures old(Consistent(studentRepo.students)) ==> Consistent(studentRepo.students)
    {
      ghost var before := studentRepo.students;
      studentRepo.Delete(id);
      forall s | s in studentRepo.students ensures s in before {
        var j :| 0 <= j < |studentRepo.students| && studentRepo.students[j] == s;
      }
    }

    /** `GetAllStudentsSortedAsync`: every stored student, sorted by name,
        students with equal names in repository order. */
    function AllStudentsSorted(): (r: seq<Student>)
      reads studentRepo
      ensures multiset(r) == multiset(studentRepo.students)
      ensures SortedByName(r)
      ensures forall n :: WithName(r, n) == WithName(studentRepo.students, n)
    {
      var ss := studentRepo.students;
      SortPermutes(ss);
      SortSorted(ss);
      forall n ensures WithName(SortByName(ss), n) == WithName(ss, n) {
        SortStable(ss, n);
      }
      SortByName(ss)
    }

    /** `SearchStudentsAsync`: every student, in repository order, when the term
        is null or white space; otherwise, in repository order, exactly the
        students whose name or email contains the term ignoring case. */
    function SearchStudents(searchTerm: Option<string>): (r: seq<Student>)
      reads studentRepo, studentRepo.students
      ensures IsNullOrWhiteSpace(searchTerm) ==> r == studentRepo.students
      ensures !IsNullOrWhiteSpace(searchTerm) ==>
        && IsSubsequence(r, studentRepo.students)
        && (forall i :: 0 <= i < |r| ==> StudentMatches(r[i], searchTerm.value))
        && (forall i :: 0 <= i < |studentRepo.students| && StudentMatches(studentRepo.students[i], searchTerm.value) ==>
              studentRepo.students[i] in r)
        && (forall x :: x in studentRepo.students ==>
              multiset(r)[x] == if StudentMatches(x, searchTerm.value) then multiset(studentRepo.students)[x] else 0)
    {
      if IsNullOrWhiteSpace(searchTerm) then studentRepo.students
      else
        MatchingCounts(studentRepo.students, searchTerm.value);
        MatchingStudents(studentRepo.students, searchTerm.value)
    }

    /** Enrolls the first student with the id in the course with the code,
        with grade 0.0. Fails, changing nothing, when the student or the course
        is missing or the student already holds an enrollment for the code. */
    method EnrollStudent(studentId: int, courseCode: string) returns (r: Outcome)
      modifies studentRepo.students
      ensures var s := FindById(studentRepo.students, studentId);
        var found := FindByCode(courseRepo.courses, courseCode) != null;
        && (s == null ==> r == Fail(StudentNotFound))
        && (s != null && !found ==> r == Fail(CourseNotFound))
        && (s != null && found && HasEnrollment(old(s.enrollments), courseCode) ==> r == Fail(AlreadyEnrolled))
        && (s != null && found && !HasEnrollment(old(s.enrollments), courseCode) ==> r == Ok)
      ensures r.Fail? ==> forall t :: t in studentRepo.students ==> t.enrollments == old(t.enrollments)
      ensures r.Ok? ==>
        var s := FindById(studentRepo.students, studentId);
        var n := |old(s.enrollments)|;
        && |s.enrollments| == n + 1
        && s.enrollments[..n] == old(s.enrollments)
        && fresh(s.enrollments[n])
        && s.enrollments[n].studentId == studentId
        && s.enrollments[n].courseCode == courseCode
        && s.enrollments[n].grade == 0.0
      ensures forall t :: t in studentRepo.students && t != FindById(studentRepo.students, studentId) ==>
        t.enrollments == old(t.enrollments)
      ensures forall t :: t in studentRepo.students ==> t.email == old(t.email)
      ensures old(Consistent(studentRepo.students)) ==> Consistent(studentRepo.students)
    {
      var student := studentRepo.GetById(studentId);
      if student == null {
        return Fail(StudentNotFound);
      }
      var course := courseRepo.GetByCode(courseCode);
      if course == null {
        return Fail(CourseNotFound);
      }
      if HasEnrollment(student.enrollments, courseCode) {
        return Fail(AlreadyEnrolled);
      }
      ghost var before := student.enrollments;
      ghost var wasConsistent := Consistent(studentRepo.students);
      var newEnrollment := new Enrollment(studentId, courseCode, 0.0);
      student.AddEnrollment(newEnrollment);
      studentRepo.Update(student);
      if wasConsistent {
        AppendKeepsUniqueCodes(before, newEnrollment);
      }
      r := Ok;
    }

    /** Grades the first enrollment for the code held by the first student with
        the id. Fails when the student is missing, holds no enrollment for the
        code, or the grade is outside [0.0, 10.0]; only that one enrollment's
        grade can change. */
    method AssignGrade(studentId: int, courseCode: string, newGrade: real) returns (r: Outcome)
      modifies GradeTarget(studentRepo.students, studentId, courseCode)
      ensures var s := FindById(studentRepo.students, studentId);
        && (s == null ==> r == Fail(StudentNotFound))
        && (s != null && !HasEnrollment(s.enrollments, courseCode) ==> r == Fail(NotEnrolled))
        && (s != null && HasEnrollment(s.enrollments, courseCode) ==>
              r == if ValidGrade(newGrade) then Ok else Fail(GradeOutOfRange))
      ensures var e := GradeTarget(studentRepo.students, studentId, courseCode);
        e != null ==> e.grade == if ValidGrade(newGrade) then newGrade else old(e.grade)
      ensures old(Consistent(studentRepo.students)) ==> Consistent(studentRepo.students)
    {
      var student := studentRepo.GetById(studentId);
      if student == null {
        return Fail(StudentNotFound);
      }
      var enrollment := FindEnrollment(student.enrollments, courseCode);
      if enrollment == null {
        return Fail(NotEnrolled);
      }
      r := enrollment.AssignGrade(newGrade);
      if r.Fail? {
        return;
      }
      studentRepo.Update(student);
    }

    /** `CalculateGpaAsync`: the GPA of the first student with the id, computed
        over the enrollments whose course resolves. */
    method CalculateGpa(studentId: int) returns (gpa: real)
      ensures gpa == old(StudentGpa(studentRepo.students, courseRepo.courses, studentId))
    {
      var student := studentRepo.GetById(studentId);
      if student == null || |student.enrollments| == 0 {
        return 0.0;
      }
      var totalQualityPoints: real := 0.0;
      var totalCredits: int := 0;
      var enrollments := student.enrollments;
      ghost var courses := courseRepo.courses;
      ghost var rows: seq<Graded> := [];
      for i := 0 to |enrollments|
        invariant rows == Resolved(enrollments[..i], courses)
        invariant totalQualityPoints == QualityPoints(rows)
        invariant totalCredits == TotalCredits(rows)
      {
        var enrollment := enrollments[i];
        var course := courseRepo.GetByCode(enrollment.courseCode);
        ghost var prev := (rows, totalQualityPoints, totalCredits);
        if course != null {
          totalQualityPoints := totalQualityPoints + Points(enrollment.grade, course.credits);
          totalCredits := totalCredits + course.credits;
          rows := rows + [Graded(enrollment.grade, course.credits)];
        }
        assert rows == Resolved(enrollments[..i + 1], courses)
            && totalQualityPoints == QualityPoints(rows) && totalCredits == TotalCredits(rows) by {
          ResolvedStep(enrollments, i, courses, course);
          if course != null {
            AppendRow(prev.0, Graded(enrollment.grade, course.credits));
          }
        }
      }
      assert enrollments[..|enrollments|] == enrollments;
      if totalCredits == 0 {
        return 0.0;
      }
      gpa := totalQualityPoints / totalCredits as real;
    }

    /** `GetSchoolAverageGpaAsync`: the mean of every stored student's GPA, or 0
        when there are no students. */
    method GetSchoolAverageGpa() returns (average: real)
      ensures average == old(SchoolAverage(studentRepo.students, courseRepo.courses))
    {
      var allStudents := studentRepo.GetAll();
      var allGpas: seq<real> := [];
      for i := 0 to |allStudents|
        invariant allGpas == old(Gpas(allStudents[..i], allStudents, courseRepo.courses))
      {
        assert allStudents[..i + 1][..i] == allStudents[..i];
        var gpa := CalculateGpa(allStudents[i].id);
        assert gpa == old(StudentGpa(allStudents, courseRepo.courses, allStudents[i].id));
        allGpas := allGpas + [gpa];
      }
      assert allStudents[..|allStudents|] == allStudents;
      if |allGpas| > 0 {
        return Average(allGpas);
      }
      return 0.0;
    }

    /** Removes every enrollment for the code from every stored student, keeping
        the other enrollments in order; the student list itself and the course
        are not changed. */
    method RemoveCourseFromAllStudents(courseCode: string)
      modifies studentRepo.students
      ensures studentRepo.students == old(studentRepo.students)
      ensures forall j :: 0 <= j < |studentRepo.students| ==>
        studentRepo.students[j].enrollments == Without(old(studentRepo.students[j].enrollments), courseCode)
      ensures forall t :: t in studentRepo.students ==> t.email == old(t.email)
    {
      var allStudents := studentRepo.GetAll();
      for i := 0 to |allStudents|
        invariant forall j :: 0 <= j < i ==>
          allStudents[j].enrollments == Without(old(allStudents[j].enrollments), courseCode)
        invariant forall j :: i <= j < |allStudents| ==>
          allStudents[j].enrollments == old(allStudents[j].enrollments) ||
          allStudents[j].enrollments == Without(old(allStudents[j].enrollments), courseCode)
        invariant forall j :: 0 <= j < |allStudents| ==> allStudents[j].email == old(allStudents[j].email)
      {
        var student := allStudents[i];
        WithoutIdempotent(old(student.enrollments), courseCode);
        student.enrollments := Without(student.enrollments, courseCode);
      }
    }
  }
}

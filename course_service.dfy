/** The course service: adding, updating, removing, listing and searching
    courses through the course repository. Removing a course does not touch
    the enrollments that name its code. */
module CourseService {
  import opened Common
  import opened Text
  import opened Model
  import opened CourseRepository

  /** The filter of `SearchCoursesAsync`: the instructor contains the name,
      ignoring case, when a name is given, or the credits equal the requested
      credits, when credits are given (a missing value never equals a number). */
  predicate CourseMatches(c: Course, instructorName: Option<string>, credits: Option<int>)
    reads c
  {
    (instructorName.Some? && ContainsIgnoreCase(c.instructor, instructorName.value))
    || (credits.Some? && c.credits == credits.value)
  }

  /** The courses that pass the filter, in their original order. */
  function MatchingCourses(courses: seq<Course>, instructorName: Option<string>, credits: Option<int>): (r: seq<Course>)
    reads courses
    ensures forall i :: 0 <= i < |r| ==> r[i] in courses && CourseMatches(r[i], instructorName, credits)
    ensures forall i :: 0 <= i < |courses| && CourseMatches(courses[i], instructorName, credits) ==> courses[i] in r
    ensures IsSubsequence(r, courses)
  {
    if courses == [] then []
    else
      var rest := MatchingCourses(courses[1..], instructorName, credits);
      if CourseMatches(courses[0], instructorName, credits) then [courses[0]] + rest else rest
  }

  /** `Where` keeps every course that passes the filter as many times as the
      list holds it, and no copy of one that does not. */
  lemma {:induction false} MatchingCounts(courses: seq<Course>, instructorName: Option<string>, credits: Option<int>)
    ensures forall x ::
      multiset(MatchingCourses(courses, instructorName, credits))[x] ==
        if CourseMatches(x, instructorName, credits) then multiset(courses)[x] else 0
  {
    if courses != [] {
      MatchingCounts(courses[1..], instructorName, credits);
      assert courses == [courses[0]] + courses[1..];
    }
  }

  /** When every course passes the filter, the search returns the whole list. */
  lemma {:induction false} AllMatchKeepsAll(courses: seq<Course>, instructorName: Option<string>, credits: Option<int>)
    requires forall i :: 0 <= i < |courses| ==> CourseMatches(courses[i], instructorName, credits)
    ensures MatchingCourses(courses, instructorName, credits) == courses
  {
    if courses != [] {
      AllMatchKeepsAll(courses[1..], instructorName, credits);
      assert [courses[0]] + courses[1..] == courses;
    }
  }

  /** When no course passes the filter, the search returns nothing. */
  lemma {:induction false} NoneMatchKeepsNone(courses: seq<Course>, instructorName: Option<string>, credits: Option<int>)
    requires forall i :: 0 <= i < |courses| ==> !CourseMatches(courses[i], instructorName, credits)
    ensures MatchingCourses(courses, instructorName, credits) == []
  {
    if courses != [] {
      NoneMatchKeepsNone(courses[1..], instructorName, credits);
    }
  }

  /** With neither an instructor name nor credits, nothing matches. */
  lemma NoCriteriaFindsNothing(courses: seq<Course>)
    ensures MatchingCourses(courses, None, None) == []
  {
    NoneMatchKeepsNone(courses, None, None);
  }

  /** An empty instructor name is contained in every instructor, so it matches
      every course whatever the credits. */
  lemma EmptyNameFindsAll(courses: seq<Course>, credits: Option<int>)
    ensures MatchingCourses(courses, Some(""), credits) == courses
  {
    forall i | 0 <= i < |courses| ensures CourseMatches(courses[i], Some(""), credits) {
      assert OccursAt(courses[i].instructor, "", 0);
    }
    AllMatchKeepsAll(courses, Some(""), credits);
  }

  /** With credits only, a course is in the result exactly when its credits
      equal the requested ones. */
  lemma CreditsOnlyExact(courses: seq<Course>, credits: int, c: Course)
    requires c in courses
    ensures c in MatchingCourses(courses, None, Some(credits)) <==> c.credits == credits
  {
    var k :| 0 <= k < |courses| && courses[k] == c;
  }

  /** The service over a course repository. */
  class CourseService {
    const courseRepo: InMemoryCourseRepository

    constructor (courseRepo: InMemoryCourseRepository)
      ensures this.courseRepo == courseRepo
    {
      this.courseRepo := courseRepo;
    }

    /** Stores the course at the end of the list, even when its code is
        already stored. */
    method AddCourse(course: Course)
      modifies courseRepo
      ensures courseRepo.courses == old(courseRepo.courses) + [course]
    {
      courseRepo.Add(course);
    }

    /** Persisting a course changes nothing: the stored object is the live one. */
    method UpdateCourse(course: Course)
      ensures courseRepo.courses == old(courseRepo.courses)
    {
      courseRepo.Update(course);
    }

    /** Deletes the first course with the code; a no-op when none has it. The
        enrollments that name the code are left in place. */
    method RemoveCourse(code: string)
      modifies courseRepo
      ensures courseRepo.courses == RemoveFirstCode(old(courseRepo.courses), code)
      ensures AtMostOnce(old(courseRepo.courses), code) ==> FindByCode(courseRepo.courses, code) == null
    {
      courseRepo.Delete(code);
      if AtMostOnce(old(courseRepo.courses), code) {
        DeleteThenFindNothing(old(courseRepo.courses), code);
      }
    }

    /** Every stored course, in insertion order. */
    method GetAllCourses() returns (all: seq<Course>)
      ensures all == courseRepo.courses
    {
      all := courseRepo.GetAll();
    }

    /** `SearchCoursesAsync`: in repository order, exactly the courses whose
        instructor contains the name ignoring case (when a name is given) or
        whose credits equal the requested credits (when credits are given). */
    function SearchCourses(instructorName: Option<string>, credits: Option<int>): (r: seq<Course>)
      reads courseRepo, courseRepo.courses
      ensures IsSubsequence(r, courseRepo.courses)
      ensures forall i :: 0 <= i < |r| ==> CourseMatches(r[i], instructorName, credits)
      ensures forall i :: 0 <= i < |courseRepo.courses| && CourseMatches(courseRepo.courses[i], instructorName, credits) ==>
        courseRepo.courses[i] in r
      ensures forall x :: x in courseRepo.courses ==>
        multiset(r)[x] == if CourseMatches(x, instructorName, credits) then multiset(courseRepo.courses)[x] else 0
    {
      MatchingCounts(courseRepo.courses, instructorName, credits);
      MatchingCourses(courseRepo.courses, instructorName, credits)
    }
  }
}

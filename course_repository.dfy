/** The in-memory course store: a list of course objects kept in insertion
    order. Lookups return the first course with the requested code; codes are
    not checked for uniqueness. */
module CourseRepository {
  import opened Common
  import opened Model

  /** Position of the first course whose code is `code`, or -1 when none has it. */
  function IndexOfCode(courses: seq<Course>, code: string): (k: int)
    ensures -1 <= k < |courses|
    ensures k == -1 <==> forall j :: 0 <= j < |courses| ==> courses[j].code != code
    ensures 0 <= k ==> courses[k].code == code && forall j :: 0 <= j < k ==> courses[j].code != code
  {
    if courses == [] then -1
    else if courses[0].code == code then 0
    else
      var k := IndexOfCode(courses[1..], code);
      if k == -1 then -1 else k + 1
  }

  /** `FirstOrDefault(c => c.Code == code)`: the first course with that code,
      or null when there is none. */
  function FindByCode(courses: seq<Course>, code: string): (c: Course?)
    ensures c == null <==> forall j :: 0 <= j < |courses| ==> courses[j].code != code
    ensures c != null ==> c in courses && c.code == code
    ensures c != null ==>
      exists k :: 0 <= k < |courses| && courses[k] == c && (forall j :: 0 <= j < k ==> courses[j].code != code)
  {
    var k := IndexOfCode(courses, code);
    if k < 0 then null else courses[k]
  }

  /** Position of the first element that is the object `c` itself, or -1: the
      element `List.Remove` takes out. */
  function IndexOfObject(courses: seq<Course>, c: Course): (k: int)
    ensures -1 <= k < |courses|
    ensures k == -1 <==> c !in courses
    ensures 0 <= k ==> courses[k] == c && forall j :: 0 <= j < k ==> courses[j] != c
  {
    if courses == [] then -1
    else if courses[0] == c then 0
    else
      var k := IndexOfObject(courses[1..], c);
      if k == -1 then -1 else k + 1
  }

  /** The list after removing the first course with code `code`; the same list
      when no course has it. */
  function RemoveFirstCode(courses: seq<Course>, code: string): (r: seq<Course>)
    ensures (forall j :: 0 <= j < |courses| ==> courses[j].code != code) ==> r == courses
    ensures IndexOfCode(courses, code) >= 0 ==>
      var k := IndexOfCode(courses, code);
      && |r| == |courses| - 1
      && (forall j :: 0 <= j < k ==> r[j] == courses[j])
      && (forall j :: k < j < |courses| ==> r[j - 1] == courses[j])
    ensures forall j :: 0 <= j < |r| ==> r[j] in courses
  {
    var k := IndexOfCode(courses, code);
    if k < 0 then courses
    else
      var r := RemoveAt(courses, k);
      assert forall j :: 0 <= j < |r| ==> r[j] in courses;
      r
  }

  /** The code is stored at most once. */
  ghost predicate AtMostOnce(courses: seq<Course>, code: string) {
    forall i, j :: 0 <= i < j < |courses| && courses[i].code == code ==> courses[j].code != code
  }

  /** The first occurrence of the first course with a given code is the
      position of that code: removing the object removes exactly that position. */
  lemma FirstObjectIsFirstCode(courses: seq<Course>, code: string)
    requires IndexOfCode(courses, code) >= 0
    ensures IndexOfObject(courses, courses[IndexOfCode(courses, code)]) == IndexOfCode(courses, code)
  {
  }

  /** A lookup in a list whose prefix holds no course with the code finds what
      the rest of the list holds. */
  lemma FindAfterPrefix(prefix: seq<Course>, rest: seq<Course>, code: string)
    requires forall j :: 0 <= j < |prefix| ==> prefix[j].code != code
    ensures FindByCode(prefix + rest, code) == FindByCode(rest, code)
  {
    var all, k := prefix + rest, IndexOfCode(rest, code);
    if k >= 0 {
      assert all[|prefix| + k] == rest[k];
      assert IndexOfCode(all, code) == |prefix| + k;
    } else {
      assert forall j :: 0 <= j < |all| ==> all[j].code != code by {
        forall j | 0 <= j < |all| ensures all[j].code != code {
          if j >= |prefix| { assert all[j] == rest[j - |prefix|]; }
        }
      }
    }
  }

  /** After deleting a code, looking it up finds the next course with that
      code (a later duplicate survives the delete), or null. */
  lemma DeleteThenFind(courses: seq<Course>, code: string)
    requires IndexOfCode(courses, code) >= 0
    ensures FindByCode(RemoveFirstCode(courses, code), code)
         == FindByCode(courses[IndexOfCode(courses, code) + 1..], code)
  {
    var k := IndexOfCode(courses, code);
    var prefix, rest := courses[..k], courses[k + 1..];
    assert RemoveFirstCode(courses, code) == prefix + rest;
    FindAfterPrefix(prefix, rest, code);
  }

  /** Once a code stored at most once is deleted, it no longer resolves. */
  lemma DeleteThenFindNothing(courses: seq<Course>, code: string)
    requires AtMostOnce(courses, code)
    ensures FindByCode(RemoveFirstCode(courses, code), code) == null
  {
    var k := IndexOfCode(courses, code);
    if k >= 0 {
      DeleteThenFind(courses, code);
      var rest := courses[k + 1..];
      forall j | 0 <= j < |rest| ensures rest[j].code != code {
        assert rest[j] == courses[k + 1 + j];
      }
      assert FindByCode(rest, code) == null;
    } else {
      assert RemoveFirstCode(courses, code) == courses;
    }
  }

  /** The course list of the in-memory repository. */
  class InMemoryCourseRepository {
    var courses: seq<Course>

    /** The repository starts empty. */
    constructor ()
      ensures courses == []
    {
      courses := [];
    }

    /** The stored list itself, in insertion order. */
    method GetAll() returns (all: seq<Course>)
      ensures all == courses
    {
      all := courses;
    }

    /** `FirstOrDefault`: the first stored course with that code (the live
        object), or null when none has it. */
    function GetByCode(code: string): (course: Course?)
      reads this
      ensures course == null <==> forall j :: 0 <= j < |courses| ==> courses[j].code != code
      ensures course != null ==>
        exists k :: 0 <= k < |courses| && courses[k] == course && course.code == code &&
                    (forall j :: 0 <= j < k ==> courses[j].code != code)
    {
      FindByCode(courses, code)
    }

    /** Appends the course at the end, even when its code is already stored. */
    method Add(course: Course)
      modifies this
      ensures courses == old(courses) + [course]
      ensures |courses| == |old(courses)| + 1
    {
      courses := courses + [course];
    }

    /** Persisting is a no-op: stored courses are the live objects. */
    method Update(course: Course)
      ensures courses == old(courses)
    {
    }

    /** Removes the first course with that code; a no-op when there is none. */
    method Delete(code: string)
      modifies this
      ensures courses == RemoveFirstCode(old(courses), code)
    {
      var course := GetByCode(code);
      if course != null {
        FirstObjectIsFirstCode(courses, code);
        var k := IndexOfObject(courses, course);
        courses := RemoveAt(courses, k);
      }
    }
  }
}

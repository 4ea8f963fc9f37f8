/** The in-memory student store: a list of student objects kept in insertion
    order. Lookups return the first student with the requested id; ids are not
    checked for uniqueness, so a list may hold several students with one id. */
module StudentRepository {
  import opened Common
  import opened Model

  /** Position of the first student whose id is `id`, or -1 when none has it. */
  function IndexOfId(students: seq<Student>, id: int): (k: int)
    ensures -1 <= k < |students|
    ensures k == -1 <==> forall j :: 0 <= j < |students| ==> students[j].id != id
    ensures 0 <= k ==> students[k].id == id && forall j :: 0 <= j < k ==> students[j].id != id
  {
    if students == [] then -1
    else if students[0].id == id then 0
    else
      var k := IndexOfId(students[1..], id);
      if k == -1 then -1 else k + 1
  }

  /** `FirstOrDefault(s => s.Id == id)`: the first student with that id, or
      null when there is none. */
  function FindById(students: seq<Student>, id: int): (s: Student?)
    ensures s == null <==> forall j :: 0 <= j < |students| ==> students[j].id != id
    ensures s != null ==> s in students && s.id == id
    ensures s != null ==>
      exists k :: 0 <= k < |students| && students[k] == s && (forall j :: 0 <= j < k ==> students[j].id != id)
  {
    var k := IndexOfId(students, id);
    if k < 0 then null else students[k]
  }

  /** Position of the first element that is the object `s` itself, or -1: the
      element `List.Remove` takes out. */
  function IndexOfObject(students: seq<Student>, s: Student): (k: int)
    ensures -1 <= k < |students|
    ensures k == -1 <==> s !in students
    ensures 0 <= k ==> students[k] == s && forall j :: 0 <= j < k ==> students[j] != s
  {
    if students == [] then -1
    else if students[0] == s then 0
    else
      var k := IndexOfObject(students[1..], s);
      if k == -1 then -1 else k + 1
  }

  /** The list after removing the first student with id `id`; the same list
      when no student has it. */
  function RemoveFirstId(students: seq<Student>, id: int): (r: seq<Student>)
    ensures (forall j :: 0 <= j < |students| ==> students[j].id != id) ==> r == students
    ensures IndexOfId(students, id) >= 0 ==>
      var k := IndexOfId(students, id);
      && |r| == |students| - 1
      && (forall j :: 0 <= j < k ==> r[j] == students[j])
      && (forall j :: k < j < |students| ==> r[j - 1] == students[j])
    ensures forall j :: 0 <= j < |r| ==> r[j] in students
  {
    var k := IndexOfId(students, id);
    if k < 0 then students
    else
      var r := RemoveAt(students, k);
      assert forall j :: 0 <= j < |r| ==> r[j] in students;
      r
  }

  /** The first occurrence of the first student with a given id is the position
      of that id: removing the object removes exactly that position. */
  lemma FirstObjectIsFirstId(students: seq<Student>, id: int)
    requires IndexOfId(students, id) >= 0
    ensures IndexOfObject(students, students[IndexOfId(students, id)]) == IndexOfId(students, id)
  {
  }

  /** A lookup in a list whose prefix holds no student with the id finds what
      the rest of the list holds. */
  lemma FindAfterPrefix(prefix: seq<Student>, rest: seq<Student>, id: int)
    requires forall j :: 0 <= j < |prefix| ==> prefix[j].id != id
    ensures FindById(prefix + rest, id) == FindById(rest, id)
  {
    var all, k := prefix + rest, IndexOfId(rest, id);
    if k >= 0 {
      assert all[|prefix| + k] == rest[k];
      assert IndexOfId(all, id) == |prefix| + k;
    } else {
      assert forall j :: 0 <= j < |all| ==> all[j].id != id by {
        forall j | 0 <= j < |all| ensures all[j].id != id {
          if j >= |prefix| { assert all[j] == rest[j - |prefix|]; }
        }
      }
    }
  }

  /** After deleting an id, looking it up finds the next student with that id
      (a later duplicate survives the delete), or null when there was only one. */
  lemma DeleteThenFind(students: seq<Student>, id: int)
    requires IndexOfId(students, id) >= 0
    ensures FindById(RemoveFirstId(students, id), id)
         == FindById(students[IndexOfId(students, id) + 1..], id)
  {
    var k := IndexOfId(students, id);
    assert RemoveFirstId(students, id) == students[..k] + students[k + 1..];
    FindAfterPrefix(students[..k], students[k + 1..], id);
  }

  /** The student list of the in-memory repository. */
  class InMemoryStudentRepository {
    var students: seq<Student>

    /** The repository starts empty. */
    constructor ()
      ensures students == []
    {
      students := [];
    }

    /** The stored list itself, in insertion order. */
    method GetAll() returns (all: seq<Student>)
      ensures all == students
    {
      all := students;
    }

    /** `FirstOrDefault`: the first stored student with that id (the live
        object), or null when none has it. */
    function GetById(id: int): (student: Student?)
      reads this
      ensures student == null <==> forall j :: 0 <= j < |students| ==> students[j].id != id
      ensures student != null ==>
        exists k :: 0 <= k < |students| && students[k] == student && student.id == id &&
                    (forall j :: 0 <= j < k ==> students[j].id != id)
    {
      FindById(students, id)
    }

    /** Appends the student at the end, even when its id is already stored. */
    method Add(student: Student)
      modifies this
      ensures students == old(students) + [student]
      ensures |students| == |old(students)| + 1
    {
      students := students + [student];
    }

    /** Persisting is a no-op: stored students are the live objects. */
    method Update(student: Student)
      ensures students == old(students)
    {
    }

    /** Removes the first student with that id; a no-op when there is none. */
    method Delete(id: int)
      modifies this
      ensures students == RemoveFirstId(old(students), id)
    {
      var student := GetById(id);
      if student != null {
        FirstObjectIsFirstId(students, id);
        var k := IndexOfObject(students, student);
        students := RemoveAt(students, k);
      }
    }
  }
}

/** Small shared vocabulary: optional values (the program's nullable
    arguments and results), the failures the services report, and the
    "kept in order" relation between a filtered list and the list it came from. */
module Common {

  /** A value that may be absent: a C# `null` reference or an empty `int?`. */
  datatype Option<T> = None | Some(value: T)

  /** Why a service operation failed. The program throws an exception in each
      case; here the operation returns the tag and leaves the state as it was. */
  datatype Error =
    | StudentNotFound   // no student with the requested id
    | CourseNotFound    // no course with the requested code
    | AlreadyEnrolled   // the student already holds an enrollment for the code
    | NotEnrolled       // the student holds no enrollment for the code
    | GradeOutOfRange   // a grade outside [0.0, 10.0]

  /** The result of an operation that returns nothing on success. */
  datatype Outcome = Ok | Fail(error: Error)

  /** `sub` is obtained from `s` by deleting elements, keeping the order of
      the rest (what LINQ `Where` and `List.RemoveAll` leave behind). */
  ghost predicate IsSubsequence<T>(sub: seq<T>, s: seq<T>)
    decreases |s|
  {
    sub == [] ||
    (s != [] &&
     ((sub[0] == s[0] && IsSubsequence(sub[1..], s[1..])) || IsSubsequence(sub, s[1..])))
  }

  /** The list without its element at position `k` (what `List.Remove` does
      once it has found the element): the elements before it stay where they
      were and those after it move down by one. */
  function RemoveAt<T>(s: seq<T>, k: int): (r: seq<T>)
    requires 0 <= k < |s|
    ensures |r| == |s| - 1
    ensures forall j :: 0 <= j < k ==> r[j] == s[j]
    ensures forall j :: k < j < |s| ==> r[j - 1] == s[j]
    ensures forall j :: 0 <= j < |r| ==> r[j] in s
  {
    s[..k] + s[k + 1..]
  }
}

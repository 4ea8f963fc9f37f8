# Student management core, modelled in Dafny

This project models the domain core of a small in-memory student management
system. The core has three entities:

- **Students** own a list of enrollments; `AddEnrollment` appends to it and the cascading removal of a course code filters it.
- **Courses** carry credits and an instructor.
- **Enrollments** carry a grade; `AssignGrade` accepts only a grade in [0.0, 10.0], and the constructor does not check it.

Two list-backed repositories store them:

- lookups return the first match;
- adding appends, without a duplicate check;
- updating does nothing, because stored objects are the live ones;
- deleting removes only the first match.

Two services work on top of the repositories:

- enrolling, grading, the credit-weighted GPA, the school-wide average, the cascading removal of a course code, and searching and sorting students;
- adding, removing, listing and searching courses.

The model keeps the program's form.

**Entities and repositories are classes** (`model.dfy`, `student_repository.dfy`, `course_repository.dfy`).
- Properties the program only sets in a constructor are `const`; the ones its methods change are `var`.
- A repository holds its list as a `seq` field, which `Add` and `Delete` reassign.
- `GetById`/`GetByCode` hand out the stored object itself. As in the program, a service changes a student or an enrollment in place, and `Update` is a no-op.

**Each service is a class holding its repositories** (`student_service.dfy`, `course_service.dfy`).
- The GPA, the school average and the cascading removal are methods with loops. They are proved against specification functions: `StudentGpa` and `SchoolAverage` in `student_service.dfy`, `Resolved`, `Gpa` and `Without` in `grading.dfy`.
- The searches and the sorted listing, which are LINQ expressions in the program, are functions.

**Failures are returned, not thrown.** An exception thrown by the program becomes an `Outcome` value `Fail(error)`, with the error tag `StudentNotFound`, `CourseNotFound`, `AlreadyEnrolled`, `NotEnrolled` or `GradeOutOfRange`. The state that exception would have left is kept.

**The service invariant** is `StudentService.Consistent`: no student holds two enrollments for one course code, and every grade lies in [0.0, 10.0]. Enrolling, grading and removing a student preserve it, and their contracts say so. Adding a student preserves it when the new student's own enrollments have unique codes and valid grades; the program does not check this. For the cascading removal, the lemma `CascadeKeepsConsistent` states the preservation.

**Two behaviours of the code are easy to miss:**
- The `Course` constructor does not check its credits (`Model/Model.cs:37-43`). Credits are therefore not always positive. `UpdateCredits` only keeps positive credits positive, so the GPA bounds carry `CreditsPositive` as a hypothesis.
- Course codes and student ids are not unique: `AddAsync` appends duplicates. Lookups and deletes act on the first match, and `DeleteThenFind` shows that a later duplicate survives a delete.

## Model

| member | source | states |
|---|---|---|
| Model.Student.constructor | Model/Model.cs:13-20 | a new student has the given id, name, email and date, and no enrollments |
| Model.Student.UpdateEmail | Model/Model.cs:21-24 | the email becomes the new one, unvalidated; the enrollments are unchanged (id and name are immutable) |
| Model.Student.AddEnrollment | Model/Model.cs:25-28 | the enrollment is appended at the end, with no duplicate-code check; the count grows by one; the email is unchanged |
| Model.Course.constructor | Model/Model.cs:37-43 | the given values are stored, and the credits are not validated |
| Model.Course.UpdateCredits | Model/Model.cs:44-50 | the credits become n when n > 0, else they are unchanged with no error; positive credits stay positive; the instructor is unchanged |
| Model.Course.UpdateInstructor | Model/Model.cs:51-54 | only the instructor changes; the credits are unchanged |
| Model.Enrollment.constructor | Model/Model.cs:63-68 | the student id, code and grade are stored as given |
| Model.Enrollment.AssignGrade | Model/Model.cs:69-78 | a grade in [0.0, 10.0] is set exactly; outside that range the call fails with GradeOutOfRange and keeps the old grade |
| Common.RemoveAt | Repositories/StudentRepository.cs:47 | the list loses the element at the position: the elements before it stay in place and those after it move down by one |
| StudentRepository.IndexOfId | Repositories/StudentRepository.cs:27 | the position of the first student with the id, or -1 exactly when none has it |
| StudentRepository.FindById | Repositories/StudentRepository.cs:27 | null exactly when no student has the id; otherwise the stored student at the first position that holds the id: no student before it has the id |
| StudentRepository.RemoveFirstId | Repositories/StudentRepository.cs:44-48 | with no match the list is unchanged; otherwise the list loses exactly the first student with the id, and the others keep their order |
| StudentRepository.FindAfterPrefix | Repositories/StudentRepository.cs:27 | a lookup skips a prefix that lacks the id |
| StudentRepository.DeleteThenFind | Repositories/StudentRepository.cs:42-49 | after a delete, a lookup of the id finds the next duplicate, if any |
| StudentRepository.InMemoryStudentRepository.constructor | Repositories/StudentRepository.cs:18 | the store starts empty |
| StudentRepository.InMemoryStudentRepository.GetAll | Repositories/StudentRepository.cs:20-23 | the stored list itself, in insertion order |
| StudentRepository.InMemoryStudentRepository.GetById | Repositories/StudentRepository.cs:25-29 | the first stored student with the id (the stored object itself), or null exactly when none has it |
| StudentRepository.InMemoryStudentRepository.Add | Repositories/StudentRepository.cs:31-35 | the student is appended even when its id is already stored; the length grows by one |
| StudentRepository.InMemoryStudentRepository.Update | Repositories/StudentRepository.cs:37-40 | the stored list is unchanged |
| StudentRepository.InMemoryStudentRepository.Delete | Repositories/StudentRepository.cs:42-49 | the list becomes RemoveFirstId of the old list |
| CourseRepository.IndexOfCode | Repositories/CourseRepository.cs:27 | the position of the first course with the code, or -1 exactly when none has it |
| CourseRepository.FindByCode | Repositories/CourseRepository.cs:27 | null exactly when no course has the code; otherwise the stored course at the first position that holds the code: no course before it has the code |
| CourseRepository.RemoveFirstCode | Repositories/CourseRepository.cs:44-48 | with no match the list is unchanged; otherwise the list loses exactly the first course with the code, and the others keep their order |
| CourseRepository.FindAfterPrefix | Repositories/CourseRepository.cs:27 | a lookup skips a prefix that lacks the code |
| CourseRepository.DeleteThenFind | Repositories/CourseRepository.cs:42-49 | after a delete, a lookup of the code finds the next duplicate, if any |
| CourseRepository.DeleteThenFindNothing | Repositories/CourseRepository.cs:25-29 | deleting a code stored at most once makes its lookup return null |
| CourseRepository.InMemoryCourseRepository.constructor | Repositories/CourseRepository.cs:18 | the store starts empty |
| CourseRepository.InMemoryCourseRepository.GetAll | Repositories/CourseRepository.cs:20-23 | the stored list itself, in insertion order |
| CourseRepository.InMemoryCourseRepository.GetByCode | Repositories/CourseRepository.cs:25-29 | the first stored course with the code (the stored object itself), or null exactly when none has it |
| CourseRepository.InMemoryCourseRepository.Add | Repositories/CourseRepository.cs:31-35 | the course is appended even when its code is already stored; the length grows by one |
| CourseRepository.InMemoryCourseRepository.Update | Repositories/CourseRepository.cs:37-40 | the stored list is unchanged |
| CourseRepository.InMemoryCourseRepository.Delete | Repositories/CourseRepository.cs:42-49 | the list becomes RemoveFirstCode of the old list |
| Grading.FindEnrollment | Services/StudentService.cs:73 | null exactly when the student has no enrollment for the code; otherwise the first enrollment for it |
| Grading.Without | Services/StudentService.cs:122-125 | no enrollment for the code is left; every other enrollment is kept, in its original order, and nothing new appears |
| Grading.WithoutCounts | Services/StudentService.cs:122-125 | every enrollment for another code is kept as many times as the list holds it, and no copy of one for the code is kept |
| Grading.WithoutIdempotent | Services/StudentService.cs:118-127 | removing a code twice is the same as removing it once |
| Grading.WithoutKeepsUniqueCodes | Services/StudentService.cs:122-125 | removing a code keeps the codes unique |
| Grading.AppendKeepsUniqueCodes | Services/StudentService.cs:60-64 | appending an enrollment for a code not yet held keeps the codes unique |
| Grading.Resolved | Services/StudentService.cs:87-95 | at most one row per enrollment: the enrollments whose course resolves, in order |
| Grading.ResolvedAppend | Services/StudentService.cs:87-95 | resolving splits over concatenation, so the loop adds one enrollment at a time |
| Grading.ResolvedStep | Services/StudentService.cs:89-94 | one loop step adds the row (grade, credits) when the enrollment's course resolves, and nothing when it does not |
| Grading.AppendRow | Services/StudentService.cs:92-93 | one more row adds grade × credits to the weighted sum and its credits to the credit total |
| Grading.ResolvedAll | Services/StudentService.cs:87-95 | when every course resolves, there is one row per enrollment, with its grade and its course's credits |
| Grading.ResolvedNone | Services/StudentService.cs:87-97 | when no course resolves, there are no rows, so the total credits are zero |
| Grading.UnresolvedIgnored | Services/StudentService.cs:89-90 | enrollments for a course that does not resolve contribute nothing |
| Grading.ResolvedGradable | Services/StudentService.cs:87-95 | valid grades and positive credits give rows with positive credits and grades in [0, 10] |
| Grading.SumsBounded | Services/StudentService.cs:92-93 | for such rows, 0 ≤ Σ grade·credits ≤ 10·Σ credits, and Σ credits ≥ 0 |
| Grading.GpaBounds | Services/StudentService.cs:97-98 | for such rows the GPA lies in [0, 10] |
| Grading.GpaExample | Services/StudentService.cs:97-98 | grade 8 over 3 credits with grade 6 over 4 credits gives 48/7 |
| Grading.SumBounded | Services/StudentService.cs:113 | values in [0, 10] sum to at most ten times their count |
| Grading.AverageBounds | Services/StudentService.cs:113 | the mean of values in [0, 10] lies in [0, 10] |
| Text.ContainsIgnoreCase | Services/StudentService.cs:48-49 | true exactly when the needle occurs at some position of the text, ignoring case |
| Text.NameLeqTotal | Services/StudentService.cs:39 | the name order is total |
| Text.NameLeqTransitive | Services/StudentService.cs:39 | the name order is transitive |
| Text.NameLeqAntisymmetric | Services/StudentService.cs:39 | the name order is antisymmetric |
| StudentService.StudentGpaBounds | Services/StudentService.cs:80-100 | under the service invariant, with positive credits, a student's GPA lies in [0, 10] |
| StudentService.NothingResolvedGpaZero | Services/StudentService.cs:97 | a student none of whose enrollments resolves has GPA 0 |
| StudentService.SchoolAverageBounds | Services/StudentService.cs:102-116 | under the same conditions the school average lies in [0, 10] |
| StudentService.GpasAt | Services/StudentService.cs:107-111 | the i-th averaged GPA is the GPA looked up by the i-th student's id |
| StudentService.UniqueIdsOwnGpa | Services/StudentService.cs:107-111 | with unique ids, each averaged GPA is that very student's credit-weighted mean |
| StudentService.CascadeKeepsGpaRows | Services/StudentService.cs:118-127 | once a course stored once is deleted, removing its code from the enrollments leaves the GPA rows unchanged |
| StudentService.CascadeKeepsConsistent | Services/StudentService.cs:118-127 | when every student's enrollments become its earlier enrollments without the code, and the earlier ones kept the invariant, the invariant holds afterwards |
| StudentService.WithoutKeepsGradesValid | Services/StudentService.cs:122-125 | removing a code keeps every grade valid |
| StudentService.GradeTarget | Services/StudentService.cs:70-73 | the enrollment that grading changes is null exactly when the student or the enrollment is missing; otherwise it is the student's enrollment for the code |
| StudentService.MatchingStudents | Services/StudentService.cs:47-49 | a subsequence of the students; it holds exactly the students whose name or email contains the term, ignoring case |
| StudentService.MatchingCounts | Services/StudentService.cs:47-49 | a matching student is kept as many times as the list holds it, and a student that does not match is not kept |
| StudentService.InsertPermutes | Services/StudentService.cs:39 | inserting adds exactly that student |
| StudentService.InsertSorted | Services/StudentService.cs:39 | inserting into a sorted list keeps it sorted by name |
| StudentService.InsertStable | Services/StudentService.cs:39 | inserting keeps students of equal name in order |
| StudentService.SortPermutes | Services/StudentService.cs:39 | the sort is a permutation |
| StudentService.SortSorted | Services/StudentService.cs:39 | the result is sorted by name |
| StudentService.SortStable | Services/StudentService.cs:39 | students with equal names keep their relative order |
| StudentService.StudentService.constructor | Services/StudentService.cs:15-19 | the service holds the two repositories it is given |
| StudentService.StudentService.AddStudent | Services/StudentService.cs:21-24 | the student is appended; a student whose own enrollments have unique codes and valid grades keeps the invariant |
| StudentService.StudentService.UpdateStudent | Services/StudentService.cs:26-29 | the stored list is unchanged |
| StudentService.StudentService.RemoveStudent | Services/StudentService.cs:31-34 | the list becomes RemoveFirstId of the old list; no student is added; the invariant is kept |
| StudentService.StudentService.AllStudentsSorted | Services/StudentService.cs:36-40 | a permutation of the stored students, sorted by name, and stable for equal names |
| StudentService.StudentService.SearchStudents | Services/StudentService.cs:42-50 | every student, in order, for a null or white-space term; otherwise, in order, exactly the students whose name or email contains the term ignoring case, each as many times as it is stored |
| StudentService.StudentService.EnrollStudent | Services/StudentService.cs:52-66 | fails with StudentNotFound, CourseNotFound or AlreadyEnrolled and then changes no enrollments; on success it appends one fresh enrollment (this id, this code, grade 0.0) to the first student with the id; no other student's enrollments and no student's email change; the invariant is kept |
| StudentService.StudentService.AssignGrade | Services/StudentService.cs:68-78 | fails with StudentNotFound or NotEnrolled; otherwise only the first enrollment for the code changes, and only under the range check; the invariant is kept |
| StudentService.StudentService.CalculateGpa | Services/StudentService.cs:80-100 | the result equals StudentGpa: 0 for a missing student or one with no enrollments; otherwise Σ grade·credits / Σ credits over the enrollments whose course resolves, or 0 when the credits add up to zero |
| StudentService.StudentService.GetSchoolAverageGpa | Services/StudentService.cs:102-116 | the result equals SchoolAverage: the mean of the GPA looked up by each stored student's id, or 0 with no students |
| StudentService.StudentService.RemoveCourseFromAllStudents | Services/StudentService.cs:118-127 | every stored student's enrollments become Without(old enrollments, code), also when a student is stored twice; no email changes and the student list is not changed |
| CourseService.MatchingCourses | Services/CourseServices.cs:43-44 | a subsequence of the courses; it holds exactly those whose instructor contains the name, when one is given, or whose credits equal the credits, when given |
| CourseService.MatchingCounts | Services/CourseServices.cs:43-44 | a course that passes the filter is kept as many times as the list holds it, and one that does not is not kept |
| CourseService.AllMatchKeepsAll | Services/CourseServices.cs:43-44 | when every course passes the filter, the whole list is returned |
| CourseService.NoneMatchKeepsNone | Services/CourseServices.cs:43-44 | when no course passes the filter, nothing is returned |
| CourseService.NoCriteriaFindsNothing | Services/CourseServices.cs:44 | with neither a name nor credits, the result is empty |
| CourseService.EmptyNameFindsAll | Services/CourseServices.cs:44 | an empty instructor name matches every course |
| CourseService.CreditsOnlyExact | Services/CourseServices.cs:44 | a credits-only query keeps a course exactly when its credits are equal |
| CourseService.CourseService.constructor | Services/CourseServices.cs:14-17 | the service holds the repository it is given |
| CourseService.CourseService.AddCourse | Services/CourseServices.cs:19-22 | has exactly the effect of the repository's Add |
| CourseService.CourseService.UpdateCourse | Services/CourseServices.cs:24-27 | the stored list is unchanged |
| CourseService.CourseService.RemoveCourse | Services/CourseServices.cs:29-32 | has exactly the effect of the repository's Delete; a code stored at most once no longer resolves afterwards |
| CourseService.CourseService.GetAllCourses | Services/CourseServices.cs:34-37 | the stored list itself |
| CourseService.CourseService.SearchCourses | Services/CourseServices.cs:39-47 | in repository order, exactly the courses that pass the OR of the two optional filters, each as many times as it is stored |

## Left out

- Asynchrony: every `Task`-returning operation is a plain synchronous method; the program never runs two at once.
- Floating point: grades, GPAs and averages are exact `real` numbers. IEEE-754 rounding, NaN and infinities are not modelled, so `AssignGrade` is not modelled on a NaN grade.
- StudentService.StudentService.CalculateGpa: does not model the 32-bit `int` wrap-around of the credit total. Integers are unbounded, so the GPA of a student whose credits add up past 2^31 - 1 differs from the program's.
- StudentService.StudentService.RemoveCourseFromAllStudents: its contract states the new enrollments of every student but not the service invariant. Proving the invariant inside the method would mean re-reading every grade after the loop. The invariant follows from the contract by `CascadeKeepsConsistent`, because the method changes no grade.
- Model.Student.constructor: ids, like credits, are unbounded integers rather than 32-bit values.
- Case folding: `Contains(…, OrdinalIgnoreCase)` is modelled with upper-casing of the ASCII letters only, not full Unicode case mapping.
- Sort order: `OrderBy(s => s.Name)` uses the culture-sensitive string comparer. The model sorts by ordinal code-point order, with the same stability.
- Null strings: names, emails, instructors and codes are never null in the model. The null-reference failure of `Contains` on a null instructor, name or email is not modelled; the nullable search term and instructor filter are `Option` values.
- Exceptions: exception types and message texts are reduced to the error tags of `Outcome`.
- `DateTime`: the enrollment date is an opaque value that is stored and never inspected.
- Lazy sequences: `Where` and `OrderBy` return lazily evaluated views of the live list. The model returns the filtered or sorted list at the time of the call.
- Repository interfaces: `IStudentRepository` and `ICourseRepository` are represented only by their in-memory implementations.
- Program.cs (the console menu, parsing, input checks and output formatting) is not part of this model.

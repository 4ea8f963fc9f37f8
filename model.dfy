/** The entities: students, courses and the enrollments a student owns.
    Properties that the program only ever sets in a constructor are `const`;
    those its methods (or, for the enrollment list, its callers) change are
    `var`. Objects are shared by reference, as in the program: a repository
    hands out the very object it stores. */
module Model {
  import opened Common

  /** A point in time, stored when a student is created and never inspected. */
  datatype DateTime = DateTime(ticks: int)

  /** The grades `Enrollment.AssignGrade` accepts: 0.0 to 10.0 inclusive. */
  predicate ValidGrade(g: real) {
    0.0 <= g <= 10.0
  }

  /** A student's registration in one course, carrying a grade. */
  class Enrollment {
    const studentId: int
    const courseCode: string
    var grade: real

    /** Stores the three values as given; the grade is not range-checked here. */
    constructor (studentId: int, courseCode: string, grade: real)
      ensures this.studentId == studentId && this.courseCode == courseCode
      ensures this.grade == grade
    {
      this.studentId := studentId;
      this.courseCode := courseCode;
      this.grade := grade;
    }

    /** Sets the grade when it lies in [0.0, 10.0]; otherwise fails and keeps
        the previous grade. */
    method AssignGrade(newGrade: real) returns (r: Outcome)
      modifies this
      ensures r == if ValidGrade(newGrade) then Ok else Fail(GradeOutOfRange)
      ensures grade == if ValidGrade(newGrade) then newGrade else old(grade)
    {
      if 0.0 <= newGrade && newGrade <= 10.0 {
        grade := newGrade;
        r := Ok;
      } else {
        r := Fail(GradeOutOfRange);
      }
    }
  }

  /** A student and the enrollments they own, in the order they were added. */
  class Student {
    const id: int
    const name: string
    var email: string
    const enrollmentDate: DateTime
    var enrollments: seq<Enrollment>

    /** A new student holds no enrollments. */
    constructor (id: int, name: string, email: string, enrollmentDate: DateTime)
      ensures this.id == id && this.name == name && this.email == email
      ensures this.enrollmentDate == enrollmentDate
      ensures enrollments == []
    {
      this.id := id;
      this.name := name;
      this.email := email;
      this.enrollmentDate := enrollmentDate;
      this.enrollments := [];
    }

    /** Replaces the email, without validating it; nothing else changes. */
    method UpdateEmail(newEmail: string)
      modifies this
      ensures email == newEmail
      ensures enrollments == old(enrollments)
    {
      email := newEmail;
    }

    /** Appends the enrollment at the end, whether or not one with the same
        course code is already there. */
    method AddEnrollment(newEnrollment: Enrollment)
      modifies this
      ensures enrollments == old(enrollments) + [newEnrollment]
      ensures |enrollments| == |old(enrollments)| + 1
      ensures email == old(email)
    {
      enrollments := enrollments + [newEnrollment];
    }
  }

  /** A course, identified by its code. */
  class Course {
    const code: string
    const name: string
    var credits: int
    var instructor: string

    /** Stores the values as given: the credits are not checked, so a course may
        start out with zero or negative credits. */
    constructor (code: string, name: string, credits: int, instructor: string)
      ensures this.code == code && this.name == name
      ensures this.credits == credits && this.instructor == instructor
    {
      this.code := code;
      this.name := name;
      this.credits := credits;
      this.instructor := instructor;
    }

    /** Takes the new credits only when they are positive; otherwise the call
        is silently ignored. Positive credits therefore stay positive. */
    method UpdateCredits(newCredits: int)
      modifies this
      ensures credits == if newCredits > 0 then newCredits else old(credits)
      ensures old(credits) > 0 ==> credits > 0
      ensures instructor == old(instructor)
    {
      if newCredits > 0 {
        credits := newCredits;
      }
    }

    /** Replaces the instructor; the credits are untouched. */
    method UpdateInstructor(newInstructor: string)
      modifies this
      ensures instructor == newInstructor
      ensures credits == old(credits)
    {
      instructor := newInstructor;
    }
  }
}

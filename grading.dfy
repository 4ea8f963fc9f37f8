/** What the student service computes over one student's enrollment list:
    the LINQ queries it runs on the list (`Any`, `FirstOrDefault`,
    `RemoveAll` by course code) and the credit-weighted grade-point average,
    with exact `real` arithmetic in place of `double`. */
module Grading {
  import opened Common
  import opened Model
  import opened CourseRepository

  // ----- Queries on an enrollment list -----

  /** `Enrollments.Any(e => e.CourseCode == code)`. */
  predicate HasEnrollment(es: seq<Enrollment>, code: string) {
    exists i :: 0 <= i < |es| && es[i].courseCode == code
  }

  /** `Enrollments.FirstOrDefault(e => e.CourseCode == code)`: the first
      enrollment for the code, or null when the student has none. */
  function FindEnrollment(es: seq<Enrollment>, code: string): (e: Enrollment?)
    ensures e == null <==> !HasEnrollment(es, code)
    ensures e != null ==> exists k :: 0 <= k < |es| && es[k] == e && e.courseCode == code &&
                                      forall j :: 0 <= j < k ==> es[j].courseCode != code
  {
    if es == [] then null
    else if es[0].courseCode == code then es[0]
    else
      var e := FindEnrollment(es[1..], code);
      assert HasEnrollment(es, code) ==> HasEnrollment(es[1..], code) by {
        if HasEnrollment(es, code) {
          var i :| 0 <= i < |es| && es[i].courseCode == code;
          assert es[1..][i - 1] == es[i];
        }
      }
      assert e != null ==> exists k :: 0 <= k < |es| && es[k] == e && e.courseCode == code &&
                                       forall j :: 0 <= j < k ==> es[j].courseCode != code by {
        if e != null {
          var k :| 0 <= k < |es[1..]| && es[1..][k] == e && e.courseCode == code &&
                   forall j :: 0 <= j < k ==> es[1..][j].courseCode != code;
          assert es[k + 1] == e;
          assert forall j :: 0 <= j < k + 1 ==> es[j].courseCode != code by {
            forall j | 0 <= j < k + 1 ensures es[j].courseCode != code {
              if j > 0 { assert es[j] == es[1..][j - 1]; }
            }
          }
        }
      }
      e
  }

  /** `Enrollments.RemoveAll(e => e.CourseCode == code)`: every enrollment for
      the code is gone and all the others stay, in their original order. */
  function Without(es: seq<Enrollment>, code: string): (r: seq<Enrollment>)
    ensures forall i :: 0 <= i < |r| ==> r[i].courseCode != code
    ensures forall i :: 0 <= i < |es| && es[i].courseCode != code ==> es[i] in r
    ensures forall e :: e in r ==> e in es
    ensures IsSubsequence(r, es)
  {
    if es == [] then []
    else if es[0].courseCode == code then Without(es[1..], code)
    else [es[0]] + Without(es[1..], code)
  }

  /** At most one enrollment per course code. */
  ghost predicate UniqueCodes(es: seq<Enrollment>) {
    forall i, j :: 0 <= i < j < |es| ==> es[i].courseCode != es[j].courseCode
  }

  /** `RemoveAll` keeps every other enrollment as many times as the list holds
      it, and no copy of an enrollment for the code. */
  lemma {:induction false} WithoutCounts(es: seq<Enrollment>, code: string)
    ensures forall x: Enrollment :: multiset(Without(es, code))[x] == if x.courseCode == code then 0 else multiset(es)[x]
  {
    if es != [] {
      WithoutCounts(es[1..], code);
      assert es == [es[0]] + es[1..];
    }
  }

  /** Removing a code twice is removing it once. */
  lemma {:induction false} WithoutIdempotent(es: seq<Enrollment>, code: string)
    ensures Without(Without(es, code), code) == Without(es, code)
  {
    if es != [] {
      WithoutIdempotent(es[1..], code);
    }
  }

  /** Removing a code keeps a list free of duplicate codes. */
  lemma {:induction false} WithoutKeepsUniqueCodes(es: seq<Enrollment>, code: string)
    requires UniqueCodes(es)
    ensures UniqueCodes(Without(es, code))
  {
    if es != [] {
      var rest := Without(es[1..], code);
      WithoutKeepsUniqueCodes(es[1..], code);
      if es[0].courseCode != code {
        forall e | e in rest ensures e.courseCode != es[0].courseCode {
          var i :| 0 <= i < |es[1..]| && es[1..][i] == e;
          assert es[i + 1] == e;
        }
        var r := [es[0]] + rest;
        forall i, j | 0 <= i < j < |r| ensures r[i].courseCode != r[j].courseCode {
          if i == 0 { assert r[j] == rest[j - 1] && r[j] in rest; }
          else { assert r[i] == rest[i - 1] && r[j] == rest[j - 1]; }
        }
      }
    }
  }

  /** Appending an enrollment whose code the list lacks keeps codes unique. */
  lemma AppendKeepsUniqueCodes(es: seq<Enrollment>, e: Enrollment)
    requires UniqueCodes(es) && !HasEnrollment(es, e.courseCode)
    ensures UniqueCodes(es + [e])
  {
    var r := es + [e];
    forall i, j | 0 <= i < j < |r| ensures r[i].courseCode != r[j].courseCode {
      if j == |es| {
        assert r[i] == es[i];
      } else {
        assert r[i] == es[i] && r[j] == es[j];
      }
    }
  }

  // ----- Grade-point average -----

  /** One enrollment whose course resolves: its grade and the course's credits. */
  datatype Graded = Graded(grade: real, credits: int)

  /** The enrollments whose course code resolves in `courses`, in enrollment
      order, each with the credits of the first course holding that code.
      Enrollments whose course no longer exists are skipped. */
  function Resolved(es: seq<Enrollment>, courses: seq<Course>): (rows: seq<Graded>)
    reads es, courses
    ensures |rows| <= |es|
  {
    if es == [] then []
    else
      var c := FindByCode(courses, es[0].courseCode);
      (if c == null then [] else [Graded(es[0].grade, c.credits)]) + Resolved(es[1..], courses)
  }

  /** A grade weighted by credits. */
  function Points(grade: real, credits: int): real {
    grade * credits as real
  }

  /** Σ grade·credits. */
  function QualityPoints(rows: seq<Graded>): real {
    if rows == [] then 0.0
    else QualityPoints(rows[..|rows| - 1]) + Points(rows[|rows| - 1].grade, rows[|rows| - 1].credits)
  }

  /** Σ credits. */
  function TotalCredits(rows: seq<Graded>): int {
    if rows == [] then 0
    else TotalCredits(rows[..|rows| - 1]) + rows[|rows| - 1].credits
  }

  /** The credit-weighted mean grade, or 0 when the credits add up to zero. */
  function Gpa(rows: seq<Graded>): real {
    var total := TotalCredits(rows);
    if total == 0 then 0.0 else QualityPoints(rows) / total as real
  }

  /** Every row has positive credits and a grade in [0, 10]. */
  ghost predicate Gradable(rows: seq<Graded>) {
    forall i :: 0 <= i < |rows| ==> rows[i].credits > 0 && ValidGrade(rows[i].grade)
  }

  /** Every enrollment's grade lies in [0, 10]. */
  ghost predicate GradesValid(es: seq<Enrollment>)
    reads es
  {
    forall e :: e in es ==> ValidGrade(e.grade)
  }

  /** Every course has positive credits. */
  ghost predicate CreditsPositive(courses: seq<Course>)
    reads courses
  {
    forall i :: 0 <= i < |courses| ==> courses[i].credits > 0
  }

  /** Resolving splits over concatenation: the loop over the enrollments can
      add one enrollment's contribution at a time. */
  lemma {:induction false} ResolvedAppend(a: seq<Enrollment>, b: seq<Enrollment>, courses: seq<Course>)
    ensures Resolved(a + b, courses) == Resolved(a, courses) + Resolved(b, courses)
  {
    if a == [] {
      assert a + b == b;
    } else {
      assert (a + b)[0] == a[0] && (a + b)[1..] == a[1..] + b;
      ResolvedAppend(a[1..], b, courses);
    }
  }

  /** Adding one more enrollment to the prefix the GPA loop has summed adds
      one row, with its grade and the credits of the course it resolves to,
      or nothing when its course does not resolve. */
  lemma ResolvedStep(es: seq<Enrollment>, i: int, courses: seq<Course>, c: Course?)
    requires 0 <= i < |es| && c == FindByCode(courses, es[i].courseCode)
    ensures Resolved(es[..i + 1], courses)
         == Resolved(es[..i], courses) + (if c == null then [] else [Graded(es[i].grade, c.credits)])
  {
    assert es[..i + 1] == es[..i] + [es[i]];
    ResolvedAppend(es[..i], [es[i]], courses);
  }

  /** One more row adds its weighted grade and its credits to the sums. */
  lemma AppendRow(rows: seq<Graded>, row: Graded)
    ensures QualityPoints(rows + [row]) == QualityPoints(rows) + Points(row.grade, row.credits)
    ensures TotalCredits(rows + [row]) == TotalCredits(rows) + row.credits
  {
    assert (rows + [row])[..|rows|] == rows;
  }

  /** When every enrollment's course resolves, there is one row per
      enrollment, carrying its grade and its course's credits. */
  lemma {:induction false} ResolvedAll(es: seq<Enrollment>, courses: seq<Course>)
    requires forall i :: 0 <= i < |es| ==> FindByCode(courses, es[i].courseCode) != null
    ensures |Resolved(es, courses)| == |es|
    ensures forall i :: 0 <= i < |es| ==>
      Resolved(es, courses)[i] == Graded(es[i].grade, FindByCode(courses, es[i].courseCode).credits)
  {
    if es != [] {
      ResolvedAll(es[1..], courses);
      var rows := Resolved(es, courses);
      forall i | 0 <= i < |es|
        ensures rows[i] == Graded(es[i].grade, FindByCode(courses, es[i].courseCode).credits)
      {
        if i > 0 { assert es[i] == es[1..][i - 1]; }
      }
    }
  }

  /** When no enrollment's course resolves, nothing is left to average. */
  lemma {:induction false} ResolvedNone(es: seq<Enrollment>, courses: seq<Course>)
    requires forall i :: 0 <= i < |es| ==> FindByCode(courses, es[i].courseCode) == null
    ensures Resolved(es, courses) == []
  {
    if es != [] {
      ResolvedNone(es[1..], courses);
    }
  }

  /** Enrollments for a code that does not resolve contribute nothing: removing
      them leaves the rows, and hence the GPA, unchanged. */
  lemma {:induction false} UnresolvedIgnored(es: seq<Enrollment>, courses: seq<Course>, code: string)
    requires FindByCode(courses, code) == null
    ensures Resolved(Without(es, code), courses) == Resolved(es, courses)
  {
    if es != [] {
      UnresolvedIgnored(es[1..], courses, code);
      if es[0].courseCode != code {
        assert ([es[0]] + Without(es[1..], code))[1..] == Without(es[1..], code);
      }
    }
  }

  /** Valid grades and positive credits make every row gradable. */
  lemma {:induction false} ResolvedGradable(es: seq<Enrollment>, courses: seq<Course>)
    requires GradesValid(es) && CreditsPositive(courses)
    ensures Gradable(Resolved(es, courses))
  {
    if es != [] {
      ResolvedGradable(es[1..], courses);
      var c := FindByCode(courses, es[0].courseCode);
      if c != null {
        var k :| 0 <= k < |courses| && courses[k] == c;
      }
    }
  }

  /** With gradable rows, the credits are non-negative and the quality points
      lie between 0 and ten times the credits. */
  lemma {:induction false} SumsBounded(rows: seq<Graded>)
    requires Gradable(rows)
    ensures TotalCredits(rows) >= 0
    ensures 0.0 <= QualityPoints(rows) <= 10.0 * TotalCredits(rows) as real
  {
    if rows != [] {
      var init, last := rows[..|rows| - 1], rows[|rows| - 1];
      assert Gradable(init) by {
        forall i | 0 <= i < |init| ensures init[i].credits > 0 && ValidGrade(init[i].grade) {
          assert init[i] == rows[i];
        }
      }
      SumsBounded(init);
      var c := last.credits as real;
      assert 0.0 <= Points(last.grade, last.credits) <= 10.0 * c by {
        assert c > 0.0 && 0.0 <= last.grade <= 10.0;
      }
      assert QualityPoints(rows) == QualityPoints(init) + Points(last.grade, last.credits);
      assert TotalCredits(rows) as real == TotalCredits(init) as real + c;
    }
  }

  /** With positive credits and grades in [0, 10], the GPA lies in [0, 10]. */
  lemma GpaBounds(rows: seq<Graded>)
    requires Gradable(rows)
    ensures 0.0 <= Gpa(rows) <= 10.0
  {
    SumsBounded(rows);
    var total := TotalCredits(rows);
    if total != 0 {
      var q, t := QualityPoints(rows), total as real;
      assert q / t <= 10.0 by {
        assert q <= 10.0 * t && t > 0.0;
      }
    }
  }

  /** The worked example: grade 8 over 3 credits and grade 6 over 4 credits
      average to 48/7. */
  lemma GpaExample()
    ensures Gpa([Graded(8.0, 3), Graded(6.0, 4)]) == 48.0 / 7.0
  {
    var rows := [Graded(8.0, 3), Graded(6.0, 4)];
    assert rows[..1] == [Graded(8.0, 3)] && rows[..1][..0] == [];
    assert TotalCredits(rows) == 7;
    assert QualityPoints(rows) == 48.0;
  }

  // ----- School-wide mean -----

  /** Σ xs. */
  function Sum(xs: seq<real>): real {
    if xs == [] then 0.0 else Sum(xs[..|xs| - 1]) + xs[|xs| - 1]
  }

  /** `Enumerable.Average` of a non-empty list. */
  function Average(xs: seq<real>): real
    requires xs != []
  {
    Sum(xs) / |xs| as real
  }

  /** Values in [0, 10] add up to at most ten times their number. */
  lemma {:induction false} SumBounded(xs: seq<real>)
    requires forall i :: 0 <= i < |xs| ==> 0.0 <= xs[i] <= 10.0
    ensures 0.0 <= Sum(xs) <= 10.0 * |xs| as real
  {
    if xs != [] {
      SumBounded(xs[..|xs| - 1]);
    }
  }

  /** The mean of values in [0, 10] lies in [0, 10]. */
  lemma AverageBounds(xs: seq<real>)
    requires xs != []
    requires forall i :: 0 <= i < |xs| ==> 0.0 <= xs[i] <= 10.0
    ensures 0.0 <= Average(xs) <= 10.0
  {
    SumBounded(xs);
    var s, n := Sum(xs), |xs| as real;
    assert s / n <= 10.0 by {
      assert s <= 10.0 * n && n > 0.0;
    }
  }
}

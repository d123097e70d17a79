/**
 * The academic-data computation of MainLayout.tsx: one pass over the semesters
 * in record order that sums credits (SKS) and quality points, yields the
 * cumulative index (IPK), and builds the per-semester IPK progression.
 */
module Aggregation {
  import opened Wrappers
  import opened Records
  import GradeScale

  /** A course adds to credits and quality points only when scored and with positive credits. */
  predicate Counts(c: Course) {
    c.score.Some? && c.credits > 0
  }

  /** The credits a course adds to its semester. */
  function CourseCredits(c: Course): int {
    if Counts(c) then c.credits else 0
  }

  /** The quality points (grade point times credits) a course adds to its semester. */
  function CourseQualityPoints(c: Course): real {
    if Counts(c) then GradeScale.DetailsFromScore(c.score).point * c.credits as real else 0.0
  }

  /** The semester's credits: the sum over its courses, in order. */
  function SemesterCredits(courses: seq<Course>): int
    decreases |courses|
  {
    if courses == [] then 0
    else SemesterCredits(courses[..|courses| - 1]) + CourseCredits(courses[|courses| - 1])
  }

  /** The semester's quality points: the sum over its courses, in order. */
  function SemesterQualityPoints(courses: seq<Course>): real
    decreases |courses|
  {
    if courses == [] then 0.0
    else SemesterQualityPoints(courses[..|courses| - 1]) + CourseQualityPoints(courses[|courses| - 1])
  }

  /** A semester takes part in the progression when at least one of its courses has a score. */
  predicate HasScoredCourse(courses: seq<Course>) {
    exists i :: 0 <= i < |courses| && courses[i].score.Some?
  }

  /** Sum of the semester credits over all semesters, graded or not. */
  function TotalCredits(semesters: seq<Semester>): int
    decreases |semesters|
  {
    if semesters == [] then 0
    else TotalCredits(semesters[..|semesters| - 1]) + SemesterCredits(semesters[|semesters| - 1].courses)
  }

  /** Sum of the semester quality points over all semesters, graded or not. */
  function TotalQualityPoints(semesters: seq<Semester>): real
    decreases |semesters|
  {
    if semesters == [] then 0.0
    else TotalQualityPoints(semesters[..|semesters| - 1]) + SemesterQualityPoints(semesters[|semesters| - 1].courses)
  }

  /** The running credits of the progression: only semesters with a scored course add to them. */
  function GradedCredits(semesters: seq<Semester>): int
    decreases |semesters|
  {
    if semesters == [] then 0
    else
      var last := semesters[|semesters| - 1];
      GradedCredits(semesters[..|semesters| - 1]) + (if HasScoredCourse(last.courses) then SemesterCredits(last.courses) else 0)
  }

  /** The running quality points of the progression: only semesters with a scored course add to them. */
  function GradedQualityPoints(semesters: seq<Semester>): real
    decreases |semesters|
  {
    if semesters == [] then 0.0
    else
      var last := semesters[|semesters| - 1];
      GradedQualityPoints(semesters[..|semesters| - 1]) + (if HasScoredCourse(last.courses) then SemesterQualityPoints(last.courses) else 0.0)
  }

  /** Quality points over credits, or null when there are no credits. */
  function Ratio(qualityPoints: real, credits: int): Option<real> {
    if credits > 0 then Some(qualityPoints / credits as real) else None
  }

  /** The cumulative index from the grand totals. */
  function Ipk(semesters: seq<Semester>): Option<real> {
    Ratio(TotalQualityPoints(semesters), TotalCredits(semesters))
  }

  datatype ProgressEntry = ProgressEntry(name: string, ipk: Option<real>)

  /**
   * The progression series as the loop builds it, entry by entry: a semester
   * with a scored course records the ratio of the running totals, any other
   * repeats the previous entry (or null when it is the first).
   */
  function Progression(semesters: seq<Semester>): seq<ProgressEntry>
    decreases |semesters|
  {
    if semesters == [] then []
    else
      var prev := Progression(semesters[..|semesters| - 1]);
      var last := semesters[|semesters| - 1];
      var ipk :=
        if HasScoredCourse(last.courses) then Ratio(GradedQualityPoints(semesters), GradedCredits(semesters))
        else if |prev| > 0 then prev[|prev| - 1].ipk
        else None;
      prev + [ProgressEntry(last.name, ipk)]
  }

  /** A course list sums to at least zero credits, and to at most four quality points per credit. */
  lemma {:induction false} SemesterBounds(courses: seq<Course>)
    ensures SemesterCredits(courses) >= 0
    ensures 0.0 <= SemesterQualityPoints(courses) <= 4.0 * SemesterCredits(courses) as real
    decreases |courses|
  {
    if courses != [] {
      var c := courses[|courses| - 1];
      SemesterBounds(courses[..|courses| - 1]);
      if Counts(c) {
        var p := GradeScale.DetailsFromScore(c.score).point;
        assert 0.0 <= p * c.credits as real <= 4.0 * c.credits as real;
      }
    }
  }

  /** A semester without any scored course adds nothing, since every counting course is scored. */
  lemma {:induction false} UnscoredSemesterAddsNothing(courses: seq<Course>)
    requires !HasScoredCourse(courses)
    ensures SemesterCredits(courses) == 0 && SemesterQualityPoints(courses) == 0.0
    decreases |courses|
  {
    if courses != [] {
      var init := courses[..|courses| - 1];
      assert !HasScoredCourse(init) by {
        forall i | 0 <= i < |init| ensures init[i].score.None? {
          assert init[i] == courses[i];
        }
      }
      UnscoredSemesterAddsNothing(init);
    }
  }

  /** Both total credits and total quality points are non-negative, and the points at most four per credit. */
  lemma {:induction false} TotalBounds(semesters: seq<Semester>)
    ensures TotalCredits(semesters) >= 0
    ensures 0.0 <= TotalQualityPoints(semesters) <= 4.0 * TotalCredits(semesters) as real
    decreases |semesters|
  {
    if semesters != [] {
      TotalBounds(semesters[..|semesters| - 1]);
      SemesterBounds(semesters[|semesters| - 1].courses);
    }
  }

  /** The running totals of the progression equal the grand totals of the same prefix. */
  lemma {:induction false} GradedEqualsTotal(semesters: seq<Semester>)
    ensures GradedCredits(semesters) == TotalCredits(semesters)
    ensures GradedQualityPoints(semesters) == TotalQualityPoints(semesters)
    decreases |semesters|
  {
    if semesters != [] {
      GradedEqualsTotal(semesters[..|semesters| - 1]);
      var last := semesters[|semesters| - 1];
      if !HasScoredCourse(last.courses) {
        UnscoredSemesterAddsNothing(last.courses);
      }
    }
  }

  /**
   * Every progression entry carries its semester's name and the ratio of the
   * totals of the semesters up to and including it.
   */
  lemma {:induction false} ProgressionIsPrefixRatio(semesters: seq<Semester>)
    ensures |Progression(semesters)| == |semesters|
    ensures forall k :: 0 <= k < |semesters| ==>
      Progression(semesters)[k] ==
        ProgressEntry(semesters[k].name, Ratio(TotalQualityPoints(semesters[..k + 1]), TotalCredits(semesters[..k + 1])))
    decreases |semesters|
  {
    if semesters != [] {
      var n := |semesters|;
      var init := semesters[..n - 1];
      ProgressionIsPrefixRatio(init);
      forall k | 0 <= k < n
        ensures Progression(semesters)[k] ==
          ProgressEntry(semesters[k].name, Ratio(TotalQualityPoints(semesters[..k + 1]), TotalCredits(semesters[..k + 1])))
      {
        if k < n - 1 {
          assert semesters[..k + 1] == init[..k + 1];
          assert semesters[k] == init[k];
          assert Progression(semesters) == Progression(init) + [Progression(semesters)[n - 1]];
          assert Progression(semesters)[k] == Progression(init)[k];
        } else {
          assert semesters[..k + 1] == semesters;
          LastEntryIsPrefixRatio(semesters);
        }
      }
    }
  }

  /** The step of ProgressionIsPrefixRatio: the entry the last semester adds. */
  lemma LastEntryIsPrefixRatio(semesters: seq<Semester>)
    requires |semesters| > 0
    requires var init := semesters[..|semesters| - 1];
      |Progression(init)| == |init| &&
      forall k :: 0 <= k < |init| ==>
        Progression(init)[k].ipk == Ratio(TotalQualityPoints(init[..k + 1]), TotalCredits(init[..k + 1]))
    ensures |Progression(semesters)| == |semesters|
    ensures Progression(semesters)[|semesters| - 1] ==
      ProgressEntry(semesters[|semesters| - 1].name, Ratio(TotalQualityPoints(semesters), TotalCredits(semesters)))
  {
    var n := |semesters|;
    var init := semesters[..n - 1];
    var last := semesters[n - 1];
    var prev := Progression(init);
    GradedEqualsTotal(semesters);
    if !HasScoredCourse(last.courses) {
      UnscoredSemesterAddsNothing(last.courses);
      if n > 1 {
        assert init[..n - 1] == init;
        assert prev[n - 2].ipk == Ratio(TotalQualityPoints(init), TotalCredits(init));
      }
    }
  }

  /** A semester with no scored course repeats the previous entry, or is null when it is the first. */
  lemma ProgressionPlateau(semesters: seq<Semester>, k: nat)
    requires k < |semesters| && !HasScoredCourse(semesters[k].courses)
    ensures |Progression(semesters)| == |semesters|
    ensures Progression(semesters)[k].ipk == if k == 0 then None else Progression(semesters)[k - 1].ipk
  {
    ProgressionIsPrefixRatio(semesters);
    var prefix := semesters[..k + 1];
    assert prefix[..k] == semesters[..k];
    assert prefix[k] == semesters[k];
    UnscoredSemesterAddsNothing(semesters[k].courses);
  }

  /** The IPK is null exactly when there are no credits, and otherwise lies in [0, 4]. */
  lemma IpkNullIffNoCredits(semesters: seq<Semester>)
    ensures Ipk(semesters).None? <==> TotalCredits(semesters) == 0
    ensures Ipk(semesters).Some? ==>
      Ipk(semesters).value == TotalQualityPoints(semesters) / TotalCredits(semesters) as real &&
      0.0 <= Ipk(semesters).value <= 4.0
  {
    TotalBounds(semesters);
    var cr := TotalCredits(semesters);
    if cr > 0 {
      var qp := TotalQualityPoints(semesters);
      assert qp / cr as real <= 4.0 by {
        assert qp <= 4.0 * cr as real;
      }
    }
  }

  /** The last progression entry and the IPK from the grand totals agree. */
  lemma LastEntryIsIpk(semesters: seq<Semester>)
    requires |semesters| > 0
    ensures |Progression(semesters)| == |semesters|
    ensures Progression(semesters)[|semesters| - 1].ipk == Ipk(semesters)
  {
    ProgressionIsPrefixRatio(semesters);
    assert semesters[..|semesters|] == semesters;
  }

  /** The inner `forEach` of MainLayout.tsx: one semester's counted credits and quality points. */
  method SumSemester(courses: seq<Course>) returns (semesterCredits: int, semesterQualityPoints: real)
    ensures semesterCredits == SemesterCredits(courses) && semesterCredits >= 0
    ensures semesterQualityPoints == SemesterQualityPoints(courses)
    ensures 0.0 <= semesterQualityPoints <= 4.0 * semesterCredits as real
  {
    semesterCredits := 0;
    semesterQualityPoints := 0.0;
    var j := 0;
    while j < |courses|
      invariant 0 <= j <= |courses|
      invariant semesterCredits == SemesterCredits(courses[..j])
      invariant semesterQualityPoints == SemesterQualityPoints(courses[..j])
    {
      var course := courses[j];
      assert courses[..j + 1][..j] == courses[..j];
      if course.score.Some? && course.credits > 0 {
        var gradeDetails := GradeScale.DetailsFromScore(course.score);
        semesterCredits := semesterCredits + course.credits;
        semesterQualityPoints := semesterQualityPoints + gradeDetails.point * course.credits as real;
      }
      j := j + 1;
    }
    assert courses[..j] == courses;
    SemesterBounds(courses);
  }

  /** The `useMemo` body of MainLayout.tsx, returning its four fields. */
  method Aggregate(semesters: seq<Semester>)
    returns (ipk: Option<real>, totalCredits: int, totalQualityPoints: real, ipkProgression: seq<ProgressEntry>)
    ensures totalCredits == TotalCredits(semesters) && totalCredits >= 0
    ensures totalQualityPoints == TotalQualityPoints(semesters) && totalQualityPoints >= 0.0
    ensures ipk == Ipk(semesters)
    ensures ipkProgression == Progression(semesters)
    ensures |ipkProgression| == |semesters|
    ensures forall k :: 0 <= k < |semesters| ==>
      ipkProgression[k] ==
        ProgressEntry(semesters[k].name, Ratio(TotalQualityPoints(semesters[..k + 1]), TotalCredits(semesters[..k + 1])))
    ensures |semesters| > 0 ==> ipkProgression[|semesters| - 1].ipk == ipk
  {
    totalCredits := 0;
    totalQualityPoints := 0.0;
    ipkProgression := [];
    var cumulativeCredits := 0;
    var cumulativeQualityPoints := 0.0;
    var i := 0;
    while i < |semesters|
      invariant 0 <= i <= |semesters|
      invariant totalCredits == TotalCredits(semesters[..i])
      invariant totalQualityPoints == TotalQualityPoints(semesters[..i])
      invariant cumulativeCredits == GradedCredits(semesters[..i])
      invariant cumulativeQualityPoints == GradedQualityPoints(semesters[..i])
      invariant ipkProgression == Progression(semesters[..i])
    {
      var semester := semesters[i];
      var semesterCredits, semesterQualityPoints := SumSemester(semester.courses);
      assert semesters[..i + 1][..i] == semesters[..i];
      assert semesters[..i + 1][i] == semester;

      totalCredits := totalCredits + semesterCredits;
      totalQualityPoints := totalQualityPoints + semesterQualityPoints;

      if HasScoredCourse(semester.courses) {
        cumulativeCredits := cumulativeCredits + semesterCredits;
        cumulativeQualityPoints := cumulativeQualityPoints + semesterQualityPoints;
        var currentIpk := if cumulativeCredits > 0 then Some(cumulativeQualityPoints / cumulativeCredits as real) else None;
        ipkProgression := ipkProgression + [ProgressEntry(semester.name, currentIpk)];
      } else {
        var lastIpk := if |ipkProgression| > 0 then ipkProgression[|ipkProgression| - 1].ipk else None;
        ipkProgression := ipkProgression + [ProgressEntry(semester.name, lastIpk)];
      }
      i := i + 1;
    }
    assert semesters[..i] == semesters;
    ipk := if totalCredits > 0 then Some(totalQualityPoints / totalCredits as real) else None;
    TotalBounds(semesters);
    ProgressionIsPrefixRatio(semesters);
    if |semesters| > 0 {
      LastEntryIsIpk(semesters);
    }
  }

  /** handleResetCourses: the record is replaced by the empty list. */
  function ResetCourses(semesters: seq<Semester>): (r: seq<Semester>)
    ensures |r| == 0
    ensures Ipk(r).None? && TotalCredits(r) == 0 && Progression(r) == []
  {
    []
  }

  /**
   * One semester with a 3-credit course scored 90 (A, 4) and a 2-credit course
   * scored 50 (D, 1, since C starts at 56): 3 * 4 + 2 * 1 = 14 points over 5 credits.
   */
  lemma WorkedExample()
    ensures var sem := Semester("s1", "Semester 1",
                                [Course("c1", "Course 1", 3, Some(90.0)), Course("c2", "Course 2", 2, Some(50.0))], None);
      SemesterQualityPoints(sem.courses) == 14.0 && SemesterCredits(sem.courses) == 5 && Ipk([sem]) == Some(2.8)
  {
    var c1 := Course("c1", "Course 1", 3, Some(90.0));
    var c2 := Course("c2", "Course 2", 2, Some(50.0));
    var sem := Semester("s1", "Semester 1", [c1, c2], None);
    GradeScale.DetailsByBand(90.0);
    GradeScale.DetailsByBand(50.0);
    assert sem.courses[..1] == [c1];
    assert [c1][..0] == [];
    assert CourseQualityPoints(c1) == 12.0 && CourseQualityPoints(c2) == 2.0;
    assert SemesterQualityPoints([c1]) == 12.0;
    assert SemesterCredits([c1]) == 3;
    assert [sem][..0] == [];
    assert TotalQualityPoints([sem]) == 14.0 && TotalCredits([sem]) == 5;
  }
}

/** The weighted-grade calculation behind every course card: over the graded
    coursework items of one course, the points earned (grade times weight,
    as a share of the whole course) and the weight graded so far. */
module Aggregation {
  import opened Sequences
  import opened Entities

  /** What the overview shows for a course: `score` is the share of the whole
      course earned so far, `percentageGraded` the share of it graded so far. */
  datatype Progress = Progress(score: real, percentageGraded: real)

  /** The weight an item contributes to the graded share: nothing until it is graded. */
  function GradedPart(w: Coursework): (r: real)
    ensures w.grade.None? ==> r == 0.0
    ensures w.percentage >= 0.0 ==> 0.0 <= r <= w.percentage
  {
    if w.grade.Some? then w.percentage else 0.0
  }

  /** The points an item contributes: nothing until it is graded, and with a
      grade within 0..100 never more than the weight it adds to the graded share. */
  function Points(w: Coursework): (r: real)
    ensures w.grade.None? ==> r == 0.0
    ensures w.percentage >= 0.0 && (w.grade.Some? ==> 0.0 <= w.grade.value <= 100.0) ==>
      0.0 <= r <= GradedPart(w)
  {
    match w.grade
    case Some(g) =>
      assert w.percentage >= 0.0 && 0.0 <= g <= 100.0 ==> 0.0 <= g * w.percentage <= 100.0 * w.percentage by {
        if w.percentage >= 0.0 && 0.0 <= g <= 100.0 {
          assert (100.0 - g) * w.percentage >= 0.0;
        }
      }
      g * w.percentage / 100.0
    case None => 0.0
  }

  /** No item carries a negative weight. */
  predicate WeightsNonNegative(ws: seq<Coursework>) {
    forall j :: 0 <= j < |ws| ==> ws[j].percentage >= 0.0
  }

  /** No item carries a negative weight, and every grade lies within 0..100. */
  predicate InRange(ws: seq<Coursework>) {
    forall j :: 0 <= j < |ws| ==>
      ws[j].percentage >= 0.0 && (ws[j].grade.Some? ==> 0.0 <= ws[j].grade.value <= 100.0)
  }

  /** Sum of the points of the items, taken left to right; never negative
      when the weights and grades are in range. */
  function WeightedScore(ws: seq<Coursework>): (r: real)
    ensures InRange(ws) ==> r >= 0.0
  {
    if ws == [] then 0.0
    else
      assert InRange(ws) ==> InRange(ws[..|ws| - 1]) by {
        assert forall j :: 0 <= j < |ws| - 1 ==> ws[..|ws| - 1][j] == ws[j];
      }
      WeightedScore(ws[..|ws| - 1]) + Points(ws[|ws| - 1])
  }

  /** Sum of the weights of the graded items, taken left to right; never
      negative when no weight is. */
  function GradedWeight(ws: seq<Coursework>): (r: real)
    ensures WeightsNonNegative(ws) ==> r >= 0.0
  {
    if ws == [] then 0.0
    else
      assert WeightsNonNegative(ws) ==> WeightsNonNegative(ws[..|ws| - 1]) by {
        assert forall j :: 0 <= j < |ws| - 1 ==> ws[..|ws| - 1][j] == ws[j];
      }
      GradedWeight(ws[..|ws| - 1]) + GradedPart(ws[|ws| - 1])
  }

  /** The progress of course `courseId`: only its own items count, and the
      score is reported as 0 unless some weight has been graded. */
  function CourseProgress(coursework: seq<Coursework>, courseId: Id): (r: Progress)
    ensures r.percentageGraded <= 0.0 ==> r.score == 0.0
    ensures WeightsNonNegative(coursework) ==> r.percentageGraded >= 0.0
  {
    var ws := Keep(coursework, OwnerKey, {courseId});
    assert WeightsNonNegative(coursework) ==> WeightsNonNegative(ws) by {
      if WeightsNonNegative(coursework) {
        forall j | 0 <= j < |ws| ensures ws[j].percentage >= 0.0 {
          var m :| 0 <= m < |coursework| && coursework[m] == ws[j];
        }
      }
    }
    var graded := GradedWeight(ws);
    Progress(if graded > 0.0 then WeightedScore(ws) else 0.0, graded)
  }

  /** Extending a prefix by one item adds that item's share to both sums. */
  lemma SumsSnoc(ws: seq<Coursework>, i: nat)
    requires i < |ws|
    ensures WeightedScore(ws[..i + 1]) == WeightedScore(ws[..i]) + Points(ws[i])
    ensures GradedWeight(ws[..i + 1]) == GradedWeight(ws[..i]) + GradedPart(ws[i])
  {
    assert ws[..i + 1][..i] == ws[..i];
  }

  method CalculateCourseProgress(coursework: seq<Coursework>, courseId: Id) returns (p: Progress)
    ensures p == CourseProgress(coursework, courseId)
  {
    var courseWork := Keep(coursework, OwnerKey, {courseId});
    var courseScore := 0.0;
    var totalPercentage := 0.0;
    var i := 0;
    while i < |courseWork|
      invariant 0 <= i <= |courseWork|
      invariant courseScore == WeightedScore(courseWork[..i])
      invariant totalPercentage == GradedWeight(courseWork[..i])
    {
      var cw := courseWork[i];
      ghost var score0, total0 := courseScore, totalPercentage;
      if cw.grade.Some? {
        courseScore := courseScore + cw.grade.value * cw.percentage / 100.0;
        totalPercentage := totalPercentage + cw.percentage;
      }
      assert courseScore == score0 + Points(cw) && totalPercentage == total0 + GradedPart(cw);
      SumsSnoc(courseWork, i);
      i := i + 1;
    }
    assert courseWork[..i] == courseWork;
    p := Progress(if totalPercentage > 0.0 then courseScore else 0.0, totalPercentage);
  }

  lemma {:induction false} WeightedScoreAppend(a: seq<Coursework>, b: seq<Coursework>)
    ensures WeightedScore(a + b) == WeightedScore(a) + WeightedScore(b)
  {
    if b == [] {
      assert a + b == a;
    } else {
      var b' := b[..|b| - 1];
      assert (a + b)[..|a + b| - 1] == a + b';
      WeightedScoreAppend(a, b');
    }
  }

  lemma {:induction false} GradedWeightAppend(a: seq<Coursework>, b: seq<Coursework>)
    ensures GradedWeight(a + b) == GradedWeight(a) + GradedWeight(b)
  {
    if b == [] {
      assert a + b == a;
    } else {
      var b' := b[..|b| - 1];
      assert (a + b)[..|a + b| - 1] == a + b';
      GradedWeightAppend(a, b');
    }
  }

  /** Keeping splits around an element inserted between `a` and `b`. */
  lemma KeepAround(a: seq<Coursework>, x: Coursework, b: seq<Coursework>, k: set<Id>)
    ensures Keep(a + [x] + b, OwnerKey, k) == Keep(a, OwnerKey, k) + Keep([x], OwnerKey, k) + Keep(b, OwnerKey, k)
    ensures Keep(a + b, OwnerKey, k) == Keep(a, OwnerKey, k) + Keep(b, OwnerKey, k)
  {
    KeepAppend(a + [x], b, OwnerKey, k);
    KeepAppend(a, [x], OwnerKey, k);
    KeepAppend(a, b, OwnerKey, k);
  }

  /** An ungraded item inserted between `a` and `b` changes neither sum. */
  lemma SumsSkipUngraded(a: seq<Coursework>, x: Coursework, b: seq<Coursework>)
    requires x.grade.None?
    ensures WeightedScore(a + [x] + b) == WeightedScore(a + b)
    ensures GradedWeight(a + [x] + b) == GradedWeight(a + b)
  {
    WeightedScoreAppend(a + [x], b);
    WeightedScoreAppend(a, [x]);
    WeightedScoreAppend(a, b);
    GradedWeightAppend(a + [x], b);
    GradedWeightAppend(a, [x]);
    GradedWeightAppend(a, b);
    assert [x][..0] == [];
  }

  /** Items of other courses do not contribute, wherever they stand. */
  lemma ProgressIgnoresOtherCourses(a: seq<Coursework>, x: Coursework, b: seq<Coursework>, courseId: Id)
    requires x.courseId != courseId
    ensures CourseProgress(a + [x] + b, courseId) == CourseProgress(a + b, courseId)
  {
    KeepSkip(a, x, b, OwnerKey, {courseId});
  }

  /** Among the kept items, an ungraded one changes neither sum. */
  lemma KeptSumsSkipUngraded(a: seq<Coursework>, x: Coursework, b: seq<Coursework>, k: set<Id>)
    requires x.grade.None?
    ensures WeightedScore(Keep(a + [x] + b, OwnerKey, k)) == WeightedScore(Keep(a + b, OwnerKey, k))
    ensures GradedWeight(Keep(a + [x] + b, OwnerKey, k)) == GradedWeight(Keep(a + b, OwnerKey, k))
  {
    if x.courseId in k {
      KeepAround(a, x, b, k);
      KeepSingleton(x, OwnerKey, k);
      SumsSkipUngraded(Keep(a, OwnerKey, k), x, Keep(b, OwnerKey, k));
    } else {
      KeepSkip(a, x, b, OwnerKey, k);
    }
  }

  /** Ungraded items contribute to neither the score nor the graded weight. */
  lemma ProgressIgnoresUngraded(a: seq<Coursework>, x: Coursework, b: seq<Coursework>, courseId: Id)
    requires x.grade.None?
    ensures CourseProgress(a + [x] + b, courseId) == CourseProgress(a + b, courseId)
  {
    KeptSumsSkipUngraded(a, x, b, {courseId});
  }

  /** Grades within 0..100 and non-negative weights keep the points earned
      between 0 and the weight graded. */
  lemma {:induction false} ScoreWithinGradedWeight(ws: seq<Coursework>)
    requires InRange(ws)
    ensures 0.0 <= WeightedScore(ws) <= GradedWeight(ws)
  {
    if ws != [] {
      var init := ws[..|ws| - 1];
      assert InRange(init) by {
        assert forall j :: 0 <= j < |init| ==> init[j] == ws[j];
      }
      ScoreWithinGradedWeight(init);
      assert Points(ws[|ws| - 1]) <= GradedPart(ws[|ws| - 1]);
    }
  }

  lemma ProgressBounds(coursework: seq<Coursework>, courseId: Id)
    requires InRange(coursework)
    ensures 0.0 <= CourseProgress(coursework, courseId).score
    ensures CourseProgress(coursework, courseId).score <= CourseProgress(coursework, courseId).percentageGraded
  {
    var ws := Keep(coursework, OwnerKey, {courseId});
    forall j | 0 <= j < |ws|
      ensures ws[j].percentage >= 0.0
      ensures ws[j].grade.Some? ==> 0.0 <= ws[j].grade.value <= 100.0
    {
      var m :| 0 <= m < |coursework| && coursework[m] == ws[j];
    }
    ScoreWithinGradedWeight(ws);
  }

  lemma {:induction false} NothingGraded(ws: seq<Coursework>)
    requires forall j :: 0 <= j < |ws| ==> ws[j].grade.None?
    ensures WeightedScore(ws) == 0.0 && GradedWeight(ws) == 0.0
  {
    if ws != [] {
      NothingGraded(ws[..|ws| - 1]);
    }
  }

  /** A course none of whose items is graded shows no progress at all,
      however many ungraded items it has. */
  lemma ProgressWhenNothingGraded(coursework: seq<Coursework>, courseId: Id)
    requires forall j :: 0 <= j < |coursework| && coursework[j].courseId == courseId ==>
      coursework[j].grade.None?
    ensures CourseProgress(coursework, courseId) == Progress(0.0, 0.0)
  {
    var ws := Keep(coursework, OwnerKey, {courseId});
    forall j | 0 <= j < |ws| ensures ws[j].grade.None? {
      var m :| 0 <= m < |coursework| && coursework[m] == ws[j];
    }
    NothingGraded(ws);
  }

  lemma {:induction false} FullMarks(ws: seq<Coursework>)
    requires forall j :: 0 <= j < |ws| && ws[j].grade.Some? ==> ws[j].grade.value == 100.0
    ensures WeightedScore(ws) == GradedWeight(ws)
  {
    if ws != [] {
      FullMarks(ws[..|ws| - 1]);
    }
  }

  /** The score is not renormalized by the graded weight: full marks on
      everything graded so far earn exactly the weight graded, not 100. */
  lemma ProgressWithFullMarks(coursework: seq<Coursework>, courseId: Id)
    requires forall j :: 0 <= j < |coursework| ==> coursework[j].percentage >= 0.0
    requires forall j :: 0 <= j < |coursework| && coursework[j].grade.Some? ==>
      coursework[j].grade.value == 100.0
    ensures CourseProgress(coursework, courseId).score == CourseProgress(coursework, courseId).percentageGraded
  {
    var ws := Keep(coursework, OwnerKey, {courseId});
    forall j | 0 <= j < |ws|
      ensures ws[j].percentage >= 0.0
      ensures ws[j].grade.Some? ==> ws[j].grade.value == 100.0
    {
      var m :| 0 <= m < |coursework| && coursework[m] == ws[j];
    }
    FullMarks(ws);
    ScoreWithinGradedWeight(ws);
  }

  /** 40% of the course graded at 80 earns 32 points; the ungraded 60% counts
      for nothing. */
  lemma PartlyGradedExample(courseId: Id)
    ensures CourseProgress([
      Coursework(1, courseId, "Midterm", Exam, 40.0, Some(80.0)),
      Coursework(2, courseId, "Final", Exam, 60.0, None)], courseId)
      == Progress(32.0, 40.0)
  {
    var a := Coursework(1, courseId, "Midterm", Exam, 40.0, Some(80.0));
    var b := Coursework(2, courseId, "Final", Exam, 60.0, None);
    assert [a, b][1..] == [b];
    assert [b][1..] == [];
    assert Keep([a, b], OwnerKey, {courseId}) == [a, b];
    assert [a, b][..1] == [a];
    assert [a][..0] == [];
    assert WeightedScore([a]) == Points(a);
    assert GradedWeight([a]) == GradedPart(a);
  }

  /** Full marks on two halves give the full 100. */
  lemma FullyGradedExample(courseId: Id)
    ensures CourseProgress([
      Coursework(1, courseId, "Lab reports", Lab, 50.0, Some(100.0)),
      Coursework(2, courseId, "Exam", Exam, 50.0, Some(100.0))], courseId)
      == Progress(100.0, 100.0)
  {
    var a := Coursework(1, courseId, "Lab reports", Lab, 50.0, Some(100.0));
    var b := Coursework(2, courseId, "Exam", Exam, 50.0, Some(100.0));
    assert [a, b][1..] == [b];
    assert [b][1..] == [];
    assert Keep([a, b], OwnerKey, {courseId}) == [a, b];
    assert [a, b][..1] == [a];
    assert [a][..0] == [];
    assert WeightedScore([a]) == Points(a);
    assert GradedWeight([a]) == GradedPart(a);
  }
}

/** The unified grading table and the resolution of a score to a grade, points and remark. */
module Grading {
  import opened Wrappers
  import opened Types

  /** One row of the table: scores reaching `min` earn `grade` and `points`. */
  datatype ScaleRow = ScaleRow(min: int, grade: string, points: int)

  /** The table, highest band first. */
  const GradingScale: seq<ScaleRow> := [
    ScaleRow(80, "A", 12),
    ScaleRow(75, "A-", 11),
    ScaleRow(70, "B+", 10),
    ScaleRow(65, "B", 9),
    ScaleRow(60, "B-", 8),
    ScaleRow(55, "C+", 7),
    ScaleRow(50, "C", 6),
    ScaleRow(45, "C-", 5),
    ScaleRow(40, "D+", 4),
    ScaleRow(35, "D", 3),
    ScaleRow(30, "D-", 2),
    ScaleRow(0, "E", 1)
  ]

  /** The table's shape: twelve rows with strictly falling minimums in 0..100 ending at 0,
      points from 12 down to 1, and twelve different grades. */
  lemma ScaleShape()
    ensures |GradingScale| == 12
    ensures forall i, j :: 0 <= i < j < |GradingScale| ==> GradingScale[i].min > GradingScale[j].min
    ensures GradingScale[|GradingScale| - 1].min == 0
    ensures forall i :: 0 <= i < |GradingScale| ==> GradingScale[i].points == 12 - i
    ensures forall i :: 0 <= i < |GradingScale| ==> 0 <= GradingScale[i].min <= 100
    ensures forall i, j :: 0 <= i < j < |GradingScale| ==> GradingScale[i].grade != GradingScale[j].grade
  {
    ScaleMins();
    ScaleGradesDistinct();
  }

  lemma ScaleMins()
    ensures |GradingScale| == 12
    ensures forall i, j :: 0 <= i < j < |GradingScale| ==> GradingScale[i].min > GradingScale[j].min
    ensures forall i :: 0 <= i < |GradingScale| ==> 0 <= GradingScale[i].min <= 100
  {
    var s := GradingScale;
    assert s[0].min == 80 && s[1].min == 75 && s[2].min == 70 && s[3].min == 65;
    assert s[4].min == 60 && s[5].min == 55 && s[6].min == 50 && s[7].min == 45;
    assert s[8].min == 40 && s[9].min == 35 && s[10].min == 30 && s[11].min == 0;
  }

  lemma ScaleGradesDistinct()
    ensures forall i, j :: 0 <= i < j < |GradingScale| ==> GradingScale[i].grade != GradingScale[j].grade
  {
    var s := GradingScale;
    forall i, j | 0 <= i < j < |s|
      ensures s[i].grade != s[j].grade
    {
      assert s[i].grade[0] != s[j].grade[0] || |s[i].grade| != |s[j].grade| || s[i].grade[|s[i].grade| - 1] != s[j].grade[|s[j].grade| - 1];
    }
  }

  /** The grade labels of the table, top to bottom. */
  function ScaleGrades(): (r: seq<string>)
    ensures |r| == |GradingScale|
    ensures forall i :: 0 <= i < |r| ==> r[i] == GradingScale[i].grade
  {
    seq(|GradingScale|, i requires 0 <= i < |GradingScale| => GradingScale[i].grade)
  }

  /** Index of the first row of `rows` (from `from` on) whose `min` the score reaches. */
  function FirstReached(score: int, rows: seq<ScaleRow>, from: nat): (r: Option<nat>)
    requires from <= |rows|
    ensures r.Some? ==> from <= r.value < |rows| && score >= rows[r.value].min
    ensures r.Some? ==> forall j :: from <= j < r.value ==> score < rows[j].min
    ensures r.None? ==> forall j :: from <= j < |rows| ==> score < rows[j].min
    decreases |rows| - from
  {
    if from == |rows| then None
    else if score >= rows[from].min then Some(from)
    else FirstReached(score, rows, from + 1)
  }

  /** The written verdict attached to a band's points. */
  function Remark(points: int): (r: string)
    ensures points >= 10 <==> r == "Excellent"
    ensures 8 <= points < 10 <==> r == "Very Good"
    ensures points == 7 <==> r == "Good"
    ensures 5 <= points < 7 <==> r == "Fair"
    ensures points < 5 <==> r == "Needs Improvement"
  {
    if points >= 10 then "Excellent"
    else if points >= 8 then "Very Good"
    else if points >= 7 then "Good"
    else if points >= 5 then "Fair"
    else "Needs Improvement"
  }

  datatype GradePoint = GradePoint(grade: string, points: int, remarks: string)

  /** Grade, points and remark for a score, a sentinel, or no score. */
  function GradeOf(score: Option<int>): (r: GradePoint)
    ensures score == Some(Absent) ==> r == GradePoint("X", 0, "Absent")
    ensures score == Some(Malpractice) ==> r == GradePoint("Y", 0, "Malpractice")
    ensures (score.None? || (score.value < 0 && score.value !in {Absent, Malpractice}) || score.value > 100)
              ==> r == GradePoint("-", 0, "N/A")
    ensures score.Some? && 0 <= score.value <= 100 ==>
              exists i :: 0 <= i < |GradingScale| && score.value >= GradingScale[i].min
                && (forall j :: 0 <= j < i ==> score.value < GradingScale[j].min)
                && r == GradePoint(GradingScale[i].grade, GradingScale[i].points, Remark(GradingScale[i].points))
  {
    match score
    case None => GradePoint("-", 0, "N/A")
    case Some(s) =>
      if s == Absent then GradePoint("X", 0, "Absent")
      else if s == Malpractice then GradePoint("Y", 0, "Malpractice")
      else if s < 0 || s > 100 then GradePoint("-", 0, "N/A")
      else match FirstReached(s, GradingScale, 0)
        case Some(i) =>
          var row := GradingScale[i];
          GradePoint(row.grade, row.points, Remark(row.points))
        case None => GradePoint("E", 1, "Significant Improvement Needed")
  }

  /** Closed form of the table: 80 and above earns 12, below 30 earns 1, and every five marks
      in between earn one more point. */
  function PointsFormula(s: int): int {
    if s >= 80 then 12 else if s < 30 then 1 else (s - 30) / 5 + 2
  }

  /** The row a score in 0..100 reaches, and its points in closed form. */
  lemma FirstRowFormula(s: int) returns (k: nat)
    requires 0 <= s <= 100
    ensures FirstReached(s, GradingScale, 0) == Some(k)
    ensures k < |GradingScale| && GradingScale[k].points == PointsFormula(s)
  {
    RowShape(11);
    k := FirstReached(s, GradingScale, 0).value;
    RowShape(k);
    if k > 0 {
      RowShape(k - 1);
    }
  }

  /** Row `k` starts at 80 - 5k (the last row at 0) and earns 12 - k points. */
  lemma RowShape(k: nat)
    requires k < |GradingScale|
    ensures GradingScale[k].min == (if k == 11 then 0 else 80 - 5 * k)
    ensures GradingScale[k].points == 12 - k
  {
  }

  /** Every score in 0..100 reaches a row, so the table's fallback row is never used, and the
      points agree with the closed form. */
  lemma PointsMatchFormula(s: int)
    requires 0 <= s <= 100
    ensures GradeOf(Some(s)).points == PointsFormula(s)
    ensures FirstReached(s, GradingScale, 0).Some?
    ensures 1 <= GradeOf(Some(s)).points <= 12
  {
    var k := FirstRowFormula(s);
    assert GradeOf(Some(s)).points == GradingScale[k].points;
    if 30 <= s < 80 {
      assert 0 <= s - 30 < 50;
      assert 0 <= (s - 30) / 5 < 10;
    }
  }

  /** More marks never earn fewer points. */
  lemma PointsMonotone(s: int, t: int)
    requires 0 <= s <= t <= 100
    ensures GradeOf(Some(s)).points <= GradeOf(Some(t)).points
  {
    PointsMatchFormula(s);
    PointsMatchFormula(t);
  }

  /** Grade A is given exactly from 80 upwards; E exactly below 30. */
  lemma TopAndBottomBands(s: int)
    requires 0 <= s <= 100
    ensures GradeOf(Some(s)).grade == "A" <==> s >= 80
    ensures GradeOf(Some(s)).points == 1 <==> s < 30
  {
    PointsMatchFormula(s);
    ScaleShape();
    var k := FirstReached(s, GradingScale, 0).value;
    if GradeOf(Some(s)).grade == "A" {
      assert GradingScale[k].grade == GradingScale[0].grade;
      assert k == 0;
    }
  }

  /** Points of any resolved grade lie in 0..12, and 0 only for sentinels and missing scores. */
  lemma PointsRange(score: Option<int>)
    ensures 0 <= GradeOf(score).points <= 12
    ensures GradeOf(score).points == 0 <==> score.None? || score.value < 0 || score.value > 100
  {
    if score.Some? && 0 <= score.value <= 100 {
      PointsMatchFormula(score.value);
    }
  }
}

/** The lighter per-student term summary the engine computes for class ranking, class analysis
    and its own comparisons: one score per subject, totals over the subjects with an entered
    score, and the resulting means and grade. */
module TermSummary {
  import opened Wrappers
  import opened Collections
  import opened Types
  import opened Grading
  import opened SubjectScore

  /** The subjects a summary covers: those among all subjects that the student's own list names
      (active or not), or every active subject when the list is empty. */
  function SummarySubjects(student: Student, allSubjects: seq<Subject>, active: seq<Subject>): (r: seq<Subject>)
    ensures |student.subjects| > 0 ==> forall s :: s in r <==> s in allSubjects && s.id in student.subjects
    ensures |student.subjects| == 0 ==> r == active
  {
    if |student.subjects| > 0 then Filter((s: Subject) => s.id in student.subjects, allSubjects)
    else active
  }

  /** The summary's weighted pass over the term sessions: the sum of score times weight and the
      sum of weights, over sessions whose mark holds a score of at least 0. */
  function SummaryWeightedSums(sessions: seq<ExamSession>, marks: seq<Mark>, studentId: string, subjectId: string): (int, int) {
    if |sessions| == 0 then (0, 0)
    else
      var rest := SummaryWeightedSums(sessions[1..], marks, studentId, subjectId);
      var score := ScoreOf(marks, studentId, subjectId, sessions[0].id);
      if score.Some? && score.value >= 0 then
        (rest.0 + score.value * sessions[0].weight, rest.1 + sessions[0].weight)
      else rest
  }

  /** The summary's own copy of the unrounded subject term score. */
  function SummaryUnrounded(mode: CalcMode, sessions: seq<ExamSession>, marks: seq<Mark>, studentId: string, subjectId: string): Option<real> {
    var scores := Present(SessionScores(sessions, marks, studentId, subjectId));
    if |scores| == 0 then None
    else if !(exists v :: v in scores && v >= 0) then Some(if Malpractice in scores then Malpractice as real else Absent as real)
    else
      var forCalc := Filter((v: int) => v >= 0, scores);
      if mode == SimpleAverage then Some(Sum(forCalc) as real / |forCalc| as real)
      else
        var sums := SummaryWeightedSums(sessions, marks, studentId, subjectId);
        if sums.1 > 0 then Some(sums.0 as real / sums.1 as real) else None
  }

  /** The stored score of each session, in session order. */
  function SessionScores(sessions: seq<ExamSession>, marks: seq<Mark>, studentId: string, subjectId: string): (r: seq<Option<int>>)
    ensures r == Scores(Components(sessions, marks, studentId, subjectId))
  {
    var r := Map((e: ExamSession) => ScoreOf(marks, studentId, subjectId, e.id), sessions);
    assert |r| == |Scores(Components(sessions, marks, studentId, subjectId))|;
    r
  }

  function SummarySubjectScore(mode: CalcMode, sessions: seq<ExamSession>, marks: seq<Mark>, studentId: string, subjectId: string): Option<int> {
    FinalScore(SummaryUnrounded(mode, sessions, marks, studentId, subjectId))
  }

  lemma {:induction false} SummarySumsAgree(sessions: seq<ExamSession>, marks: seq<Mark>, studentId: string, subjectId: string)
    ensures SummaryWeightedSums(sessions, marks, studentId, subjectId)
            == (WeightedSum(Components(sessions, marks, studentId, subjectId)), WeightSum(Components(sessions, marks, studentId, subjectId)))
  {
    if |sessions| > 0 {
      SummarySumsAgree(sessions[1..], marks, studentId, subjectId);
      var cs := Components(sessions, marks, studentId, subjectId);
      assert cs[1..] == Components(sessions[1..], marks, studentId, subjectId);
    }
  }

  /** The summary's copy of the unrounded score equals the reference definition. */
  lemma SummaryUnroundedAgrees(mode: CalcMode, sessions: seq<ExamSession>, marks: seq<Mark>, studentId: string, subjectId: string)
    ensures SummaryUnrounded(mode, sessions, marks, studentId, subjectId) == Combine(mode, Components(sessions, marks, studentId, subjectId))
  {
    var cs := Components(sessions, marks, studentId, subjectId);
    EnteredFacts(cs);
    if !NoneEntered(cs) && ValidCount(cs) > 0 {
      if mode == SimpleAverage {
        NonNegativeScores(cs);
      } else {
        SummarySumsAgree(sessions, marks, studentId, subjectId);
      }
    }
  }

  /** Hence so is the rounded score. */
  lemma SummaryScoreAgrees(mode: CalcMode, sessions: seq<ExamSession>, marks: seq<Mark>, studentId: string, subjectId: string)
    ensures SummarySubjectScore(mode, sessions, marks, studentId, subjectId)
            == TermScore(mode, Components(sessions, marks, studentId, subjectId))
  {
    SummaryUnroundedAgrees(mode, sessions, marks, studentId, subjectId);
  }

  /** One subject's line of the summary: its term score and the points that score earns. */
  datatype SummaryLine = SummaryLine(subjectId: string, score: Option<int>, points: int)

  function SummaryLines(student: Student, term: Term, db: Records): (r: seq<SummaryLine>)
    ensures |r| == |SummarySubjects(student, db.subjects, db.activeSubjects)|
    ensures forall i :: 0 <= i < |r| ==>
              var sub := SummarySubjects(student, db.subjects, db.activeSubjects)[i];
              var score := TermScore(term.mode, Components(TermSessions(db.sessions, term.id), db.marks, student.id, sub.id));
              r[i] == SummaryLine(sub.id, score, GradeOf(score).points)
  {
    var sessions := TermSessions(db.sessions, term.id);
    var subjects := SummarySubjects(student, db.subjects, db.activeSubjects);
    Map((sub: Subject) => LineFor(term.mode, sessions, db.marks, student.id, sub), subjects)
  }

  function LineFor(mode: CalcMode, sessions: seq<ExamSession>, marks: seq<Mark>, studentId: string, sub: Subject): (r: SummaryLine)
    ensures r.score == TermScore(mode, Components(sessions, marks, studentId, sub.id))
    ensures r == SummaryLine(sub.id, r.score, GradeOf(r.score).points)
  {
    SummaryScoreAgrees(mode, sessions, marks, studentId, sub.id);
    var score := SummarySubjectScore(mode, sessions, marks, studentId, sub.id);
    SummaryLine(sub.id, score, GradeOf(score).points)
  }

  /** Score as it enters a total: sentinels count 0. */
  function Marks(score: Option<int>): int {
    if score.Some? && score.value >= 0 then score.value else 0
  }

  /** Subject id to term score, written line by line as the source does (a later line with the
      same id overwrites an earlier one). */
  function ScoreMap(lines: seq<SummaryLine>): (m: map<string, Option<int>>)
    ensures m.Keys == set i | 0 <= i < |lines| :: lines[i].subjectId
    ensures forall k :: k in m ==> exists i :: 0 <= i < |lines| && lines[i].subjectId == k && lines[i].score == m[k]
  {
    if |lines| == 0 then map[]
    else
      var n := |lines| - 1;
      var m := ScoreMap(lines[..n]);
      assert forall i :: 0 <= i < n ==> lines[..n][i] == lines[i];
      assert (set i | 0 <= i < |lines| :: lines[i].subjectId) == (set i | 0 <= i < n :: lines[i].subjectId) + {lines[n].subjectId};
      m[lines[n].subjectId := lines[n].score]
  }

  /** The summary of one student's term. `subjectScores` maps each covered subject id to its
      term score. */
  datatype Summary = Summary(
    studentId: string,
    meanTermPoints: Option<real>,
    overallTermGrade: string,
    totalWeightedMarks: int,
    meanWeightedScore: Option<real>,
    subjectScores: map<string, Option<int>>)

  /** The lines with an entered score (sentinels included). */
  function Taken(lines: seq<SummaryLine>): (r: seq<SummaryLine>)
    ensures forall l :: l in r <==> l in lines && l.score.Some?
  {
    Filter((l: SummaryLine) => l.score.Some?, lines)
  }

  function TotalMarks(lines: seq<SummaryLine>): int {
    Sum(Map((l: SummaryLine) => Marks(l.score), lines))
  }

  function TotalPoints(lines: seq<SummaryLine>): int {
    Sum(Map((l: SummaryLine) => l.points, lines))
  }

  /** Grade of a mean percentage, rounded first; no mean gives the "-" grade. */
  function GradeOfMean(mean: Option<real>): string {
    GradeOf(if mean.Some? then Some(Round(mean.value)) else None).grade
  }

  /** The term score of subject `subjectId` for the student, by the reference definition. */
  function ReferenceScore(student: Student, term: Term, db: Records, subjectId: string): Option<int> {
    TermScore(term.mode, Components(TermSessions(db.sessions, term.id), db.marks, student.id, subjectId))
  }

  function Summarize(student: Student, term: Term, db: Records): (r: Summary)
    ensures r.studentId == student.id
    ensures r.meanTermPoints.None? <==>
              forall s :: s in SummarySubjects(student, db.subjects, db.activeSubjects) ==> ReferenceScore(student, term, db, s.id).None?
    ensures r.meanWeightedScore.None? <==> r.meanTermPoints.None?
    ensures r.totalWeightedMarks == TotalMarks(SummaryLines(student, term, db))
    ensures r.subjectScores.Keys == set s | s in SummarySubjects(student, db.subjects, db.activeSubjects) :: s.id
    ensures forall k :: k in r.subjectScores ==> r.subjectScores[k] == ReferenceScore(student, term, db, k)
    ensures r.overallTermGrade == GradeOfMean(r.meanWeightedScore)
    ensures ValidMarks(db.marks) ==> InRange(r, |Taken(SummaryLines(student, term, db))|)
    ensures MeansOver(r, Taken(SummaryLines(student, term, db)))
  {
    TakenTotal(SummaryLines(student, term, db));
    SummaryMeansFacts(student, term, db);
    SummaryMeansValues(student, term, db);
    ScoreMapFacts(student, term, db);
    ComputedInRange(student, term, db);
    ComputedSummary(student, term, db)
  }

  /** The total is at most 100 per subject with a score (`taken` of them), the mean percentage
      lies in 0..100 and the mean points in 0..12. */
  predicate InRange(r: Summary, taken: nat) {
    && 0 <= r.totalWeightedMarks <= 100 * taken
    && (r.meanWeightedScore.Some? ==> 0.0 <= r.meanWeightedScore.value <= 100.0)
    && (r.meanTermPoints.Some? ==> 0.0 <= r.meanTermPoints.value <= 12.0)
  }

  lemma ComputedInRange(student: Student, term: Term, db: Records)
    ensures ValidMarks(db.marks) ==> InRange(ComputedSummary(student, term, db), |Taken(SummaryLines(student, term, db))|)
  {
    SummaryBoundsFacts(student, term, db);
  }

  /** The summary as computed: means over the subjects with a score, totals over those marks. */
  function ComputedSummary(student: Student, term: Term, db: Records): Summary {
    SummaryOfLines(student.id, SummaryLines(student, term, db))
  }

  /** The summary built from a student's lines. */
  function SummaryOfLines(studentId: string, lines: seq<SummaryLine>): Summary {
    var taken := Taken(lines);
    var total := TotalMarks(taken);
    var maxTotal := |taken| * 100;
    var meanScore := if maxTotal > 0 then Some(total as real / maxTotal as real * 100.0) else None;
    var meanPoints := if |taken| > 0 then Some(TotalPoints(taken) as real / |taken| as real) else None;
    Summary(studentId, meanPoints, GradeOfMean(meanScore), total, meanScore, ScoreMap(lines))
  }

  lemma SummaryMeansFacts(student: Student, term: Term, db: Records)
    ensures var r := ComputedSummary(student, term, db);
            && (r.meanTermPoints.None? <==>
                  forall s :: s in SummarySubjects(student, db.subjects, db.activeSubjects) ==> ReferenceScore(student, term, db, s.id).None?)
            && (r.meanWeightedScore.None? <==> r.meanTermPoints.None?)
  {
    TakenEmpty(SummaryLines(student, term, db));
    LinesNone(student, term, db);
  }

  /** The means are averages over the subjects taken: mean points times their number is their
      total points, and the mean percentage times their number is their total marks. */
  /** The means of `r` are averages over the subjects `taken`: mean points times their number
      is their total points, and the mean percentage times their number is their total marks. */
  predicate MeansOver(r: Summary, taken: seq<SummaryLine>) {
    && (r.meanTermPoints.Some? <==> |taken| > 0)
    && (r.meanTermPoints.Some? ==> r.meanTermPoints.value * |taken| as real == TotalPoints(taken) as real)
    && (r.meanWeightedScore.Some? ==> r.meanWeightedScore.value * |taken| as real == r.totalWeightedMarks as real)
  }

  lemma SummaryMeansValues(student: Student, term: Term, db: Records)
    ensures MeansOver(ComputedSummary(student, term, db), Taken(SummaryLines(student, term, db)))
  {
    LinesMeans(student.id, SummaryLines(student, term, db));
  }

  lemma LinesMeans(studentId: string, lines: seq<SummaryLine>)
    ensures MeansOver(SummaryOfLines(studentId, lines), Taken(lines))
  {
    var taken := Taken(lines);
    LinesValues(studentId, lines);
    MeansFromValues(SummaryOfLines(studentId, lines), taken, TotalMarks(taken), TotalPoints(taken));
  }

  /** The totals and means of a summary, read off its lines. */
  lemma LinesValues(studentId: string, lines: seq<SummaryLine>)
    ensures var r := SummaryOfLines(studentId, lines);
            var taken := Taken(lines);
            var n := |taken|;
            && r.totalWeightedMarks == TotalMarks(taken)
            && r.meanTermPoints == (if n > 0 then Some(TotalPoints(taken) as real / n as real) else None)
            && r.meanWeightedScore == (if n * 100 > 0 then Some(TotalMarks(taken) as real / (n * 100) as real * 100.0) else None)
  {
  }

  lemma MeansFromValues(r: Summary, taken: seq<SummaryLine>, total: int, points: int)
    requires total == TotalMarks(taken) && points == TotalPoints(taken)
    requires r.totalWeightedMarks == total
    requires r.meanTermPoints == (if |taken| > 0 then Some(points as real / |taken| as real) else None)
    requires r.meanWeightedScore == (if |taken| * 100 > 0 then Some(total as real / (|taken| * 100) as real * 100.0) else None)
    ensures MeansOver(r, taken)
  {
    if |taken| > 0 {
      PercentTimesCount(total, |taken|);
      MeanTimesCount(points, |taken|);
    }
  }

  lemma PercentTimesCount(total: int, n: nat)
    requires n > 0
    ensures total as real / (n * 100) as real * 100.0 * n as real == total as real
  {
    var d := (n * 100) as real;
    assert d == n as real * 100.0;
    calc {
      total as real / d * 100.0 * n as real;
      total as real / d * d;
      total as real;
    }
  }

  lemma MeanTimesCount(total: int, n: nat)
    requires n > 0
    ensures total as real / n as real * n as real == total as real
  {
  }

  lemma ScoreMapFacts(student: Student, term: Term, db: Records)
    ensures ScoreMap(SummaryLines(student, term, db)).Keys == set s | s in SummarySubjects(student, db.subjects, db.activeSubjects) :: s.id
    ensures var m := ScoreMap(SummaryLines(student, term, db));
            forall k :: k in m ==> m[k] == ReferenceScore(student, term, db, k)
  {
    ScoreMapKeys(student, term, db);
    ScoreMapValues(student, term, db);
  }

  lemma ScoreMapKeys(student: Student, term: Term, db: Records)
    ensures ScoreMap(SummaryLines(student, term, db)).Keys == set s | s in SummarySubjects(student, db.subjects, db.activeSubjects) :: s.id
  {
    forall s | s in SummarySubjects(student, db.subjects, db.activeSubjects)
      ensures s.id in ScoreMap(SummaryLines(student, term, db))
    {
      SubjectKeyed(student, term, db, s);
    }
    forall k | k in ScoreMap(SummaryLines(student, term, db))
      ensures exists s :: s in SummarySubjects(student, db.subjects, db.activeSubjects) && s.id == k
    {
      KeyFromSubject(student, term, db, k);
    }
  }

  lemma SubjectKeyed(student: Student, term: Term, db: Records, s: Subject)
    requires s in SummarySubjects(student, db.subjects, db.activeSubjects)
    ensures s.id in ScoreMap(SummaryLines(student, term, db))
  {
    var lines := SummaryLines(student, term, db);
    var subjects := SummarySubjects(student, db.subjects, db.activeSubjects);
    var i :| 0 <= i < |subjects| && subjects[i] == s;
    assert lines[i].subjectId == s.id;
  }

  lemma KeyFromSubject(student: Student, term: Term, db: Records, k: string)
    requires k in ScoreMap(SummaryLines(student, term, db))
    ensures exists s :: s in SummarySubjects(student, db.subjects, db.activeSubjects) && s.id == k
  {
    var lines := SummaryLines(student, term, db);
    var subjects := SummarySubjects(student, db.subjects, db.activeSubjects);
    var i :| 0 <= i < |lines| && lines[i].subjectId == k;
    assert subjects[i] in subjects && subjects[i].id == k;
  }

  lemma ScoreMapValues(student: Student, term: Term, db: Records)
    ensures var m := ScoreMap(SummaryLines(student, term, db));
            forall k :: k in m ==> m[k] == ReferenceScore(student, term, db, k)
  {
    var lines := SummaryLines(student, term, db);
    var subjects := SummarySubjects(student, db.subjects, db.activeSubjects);
    var m := ScoreMap(lines);
    forall k | k in m
      ensures m[k] == ReferenceScore(student, term, db, k)
    {
      var i :| 0 <= i < |lines| && lines[i].subjectId == k && lines[i].score == m[k];
      assert subjects[i].id == k;
    }
  }

  lemma {:induction false} TakenTotal(lines: seq<SummaryLine>)
    ensures TotalMarks(Taken(lines)) == TotalMarks(lines)
  {
    if |lines| > 0 {
      TakenTotal(lines[1..]);
      var f := (l: SummaryLine) => Marks(l.score);
      assert Map(f, lines)[1..] == Map(f, lines[1..]);
      var t := Taken(lines[1..]);
      if lines[0].score.Some? {
        assert Taken(lines) == [lines[0]] + t;
        assert Map(f, [lines[0]] + t)[1..] == Map(f, t);
      } else {
        assert Taken(lines) == t;
      }
    }
  }

  lemma TakenEmpty(lines: seq<SummaryLine>)
    ensures |Taken(lines)| == 0 <==> forall i :: 0 <= i < |lines| ==> lines[i].score.None?
  {
    if |Taken(lines)| > 0 {
      assert Taken(lines)[0] in Taken(lines);
    }
    if exists i :: 0 <= i < |lines| && lines[i].score.Some? {
      var i :| 0 <= i < |lines| && lines[i].score.Some?;
      assert lines[i] in Taken(lines);
    }
  }

  lemma LinesNone(student: Student, term: Term, db: Records)
    ensures (forall i :: 0 <= i < |SummaryLines(student, term, db)| ==> SummaryLines(student, term, db)[i].score.None?) <==>
              forall s :: s in SummarySubjects(student, db.subjects, db.activeSubjects) ==> ReferenceScore(student, term, db, s.id).None?
  {
    var lines := SummaryLines(student, term, db);
    var subjects := SummarySubjects(student, db.subjects, db.activeSubjects);
    assert forall i :: 0 <= i < |lines| ==> lines[i].score == ReferenceScore(student, term, db, subjects[i].id);
    if forall i :: 0 <= i < |lines| ==> lines[i].score.None? {
      forall s | s in subjects
        ensures ReferenceScore(student, term, db, s.id).None?
      {
        var i :| 0 <= i < |subjects| && subjects[i] == s;
        assert lines[i].score.None?;
      }
    }
  }

  lemma TakenBounds(lines: seq<SummaryLine>)
    requires forall l :: l in lines ==> (l.score.Some? ==> ValidScore(l.score.value)) && 0 <= l.points <= 12
    ensures 0 <= TotalMarks(Taken(lines)) <= 100 * |Taken(lines)|
    ensures 0 <= TotalPoints(Taken(lines)) <= 12 * |Taken(lines)|
  {
    var taken := Taken(lines);
    var marks := Map((l: SummaryLine) => Marks(l.score), taken);
    var points := Map((l: SummaryLine) => l.points, taken);
    forall i | 0 <= i < |taken|
      ensures 0 <= marks[i] <= 100
    {
      assert taken[i] in lines;
    }
    SumBounds(marks, 0, 100);
    forall i | 0 <= i < |taken|
      ensures 0 <= points[i] <= 12
    {
      assert taken[i] in lines;
    }
    SumBounds(points, 0, 12);
  }

  lemma SummaryBoundsFacts(student: Student, term: Term, db: Records)
    ensures var taken := Taken(SummaryLines(student, term, db));
            ValidMarks(db.marks) ==>
              && 0 <= TotalMarks(taken) <= 100 * |taken|
              && (|taken| > 0 ==> 0.0 <= TotalMarks(taken) as real / (|taken| * 100) as real * 100.0 <= 100.0)
              && (|taken| > 0 ==> 0.0 <= TotalPoints(taken) as real / |taken| as real <= 12.0)
  {
    var lines := SummaryLines(student, term, db);
    var taken := Taken(lines);
    if ValidMarks(db.marks) {
      LinesValid(student, term, db);
      TakenBounds(lines);
      if |taken| > 0 {
        RatioWithin(TotalMarks(taken), |taken| * 100, 0, 1);
        RatioWithin(TotalPoints(taken), |taken|, 0, 12);
      }
    }
  }

  /** Every line of a summary carries a valid score or none. */
  lemma LinesValid(student: Student, term: Term, db: Records)
    requires ValidMarks(db.marks)
    ensures forall l :: l in SummaryLines(student, term, db) ==> (l.score.Some? ==> ValidScore(l.score.value)) && 0 <= l.points <= 12
  {
    var sessions := TermSessions(db.sessions, term.id);
    var lines := SummaryLines(student, term, db);
    var subjects := SummarySubjects(student, db.subjects, db.activeSubjects);
    forall l | l in lines
      ensures (l.score.Some? ==> ValidScore(l.score.value)) && 0 <= l.points <= 12
    {
      var i :| 0 <= i < |lines| && lines[i] == l;
      var sub := subjects[i];
      ComponentsValid(sessions, db.marks, student.id, sub.id);
      TermScoreValid(term.mode, Components(sessions, db.marks, student.id, sub.id));
      PointsRange(l.score);
    }
  }

  lemma ComponentsValid(sessions: seq<ExamSession>, marks: seq<Mark>, studentId: string, subjectId: string)
    requires ValidMarks(marks)
    ensures var cs := Components(sessions, marks, studentId, subjectId);
            forall i :: 0 <= i < |cs| ==> cs[i].score.Some? ==> ValidScore(cs[i].score.value)
  {
    var cs := Components(sessions, marks, studentId, subjectId);
    forall i | 0 <= i < |cs| && cs[i].score.Some?
      ensures ValidScore(cs[i].score.value)
    {
      ScoreOfValid(marks, studentId, subjectId, sessions[i].id);
    }
  }
}

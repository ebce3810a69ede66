/** The full report card of one student for one term: per-subject results with their exam
    components and the subject teacher's initials, totals and means over the reported
    subjects, the rank within the student's class and stream, the comments chosen by band of
    mean points, and the class teacher and principal names. */
module StudentReport {
  import opened Wrappers
  import opened Collections
  import opened Sorting
  import opened Text
  import opened Types
  import opened Grading
  import opened SubjectScore
  import opened Ranking
  import opened TermSummary

  // ---------------------------------------------------------------------------
  // teacher initials

  /** Initials of a person's name: nothing for a blank name, the first two letters of a
      single word, otherwise the first letters of the first and last words; upper-cased. */
  function Initials(name: string): (r: string)
    ensures |r| <= 2
    ensures r == [] <==> |Words(name)| == 0
    ensures NoSpace(r) && NoLower(r)
  {
    var letters := InitialLetters(Words(name));
    UpperWord(letters);
    ToUpper(letters)
  }

  /** The letters the initials are made of, before upper-casing. */
  function InitialLetters(parts: seq<string>): (r: string)
    requires forall k :: 0 <= k < |parts| ==> |parts[k]| > 0 && NoSpace(parts[k])
    ensures |r| <= 2 && NoSpace(r)
    ensures r == [] <==> |parts| == 0
  {
    if |parts| == 0 then []
    else if |parts| == 1 then
      var w := parts[0];
      var n := if |w| < 2 then |w| else 2;
      assert NoSpace(w);
      assert forall i :: 0 <= i < n ==> w[..n][i] == w[i];
      w[..n]
    else
      var first, last := parts[0], parts[|parts| - 1];
      assert NoSpace(first) && NoSpace(last);
      [first[0], last[0]]
  }

  /** No lower-case ASCII letter. */
  predicate NoLower(s: string) {
    forall i :: 0 <= i < |s| ==> !('a' <= s[i] <= 'z')
  }

  lemma UpperWord(s: string)
    requires NoSpace(s)
    ensures NoSpace(ToUpper(s)) && NoLower(ToUpper(s))
  {
  }

  /** The user teaches `subjectId` in class `classId`. */
  predicate Teaches(u: User, classId: string, subjectId: string) {
    u.role == Teacher && exists a :: a in u.assignments && a.classId == classId && subjectId in a.subjectIds
  }

  /** Initials of the first teacher of the subject in the class, or "-" when nobody teaches it. */
  function SubjectTeacherInitials(users: seq<User>, classId: string, subjectId: string): (r: string)
    ensures (forall j :: 0 <= j < |users| ==> !Teaches(users[j], classId, subjectId)) ==> r == "-"
    ensures (exists j :: 0 <= j < |users| && Teaches(users[j], classId, subjectId)) ==>
              exists i :: 0 <= i < |users| && Teaches(users[i], classId, subjectId) && r == Initials(users[i].name)
                && forall j :: 0 <= j < i ==> !Teaches(users[j], classId, subjectId)
  {
    match FindIndex((u: User) => Teaches(u, classId, subjectId), users)
    case None => "-"
    case Some(i) => Initials(users[i].name)
  }

  /** The user is a teacher with some assignment in class `classId`. */
  predicate TeachesIn(u: User, classId: string) {
    u.role == Teacher && exists a :: a in u.assignments && a.classId == classId
  }

  /** Name of the class teacher: the first teacher with an assignment in the class. */
  function ClassTeacherName(users: seq<User>, classId: string): (r: Option<string>)
    ensures r.None? <==> forall j :: 0 <= j < |users| ==> !TeachesIn(users[j], classId)
    ensures r.Some? ==> exists i :: 0 <= i < |users| && TeachesIn(users[i], classId) && r.value == users[i].name
                          && forall j :: 0 <= j < i ==> !TeachesIn(users[j], classId)
  {
    match FindIndex((u: User) => TeachesIn(u, classId), users)
    case None => None
    case Some(i) => Some(users[i].name)
  }

  /** An administrator whose name contains "principal" in any letter case. */
  predicate IsPrincipal(u: User) {
    u.role == Admin && Occurs("principal", ToLower(u.name))
  }

  function PrincipalName(users: seq<User>): (r: Option<string>)
    ensures r.None? <==> forall j :: 0 <= j < |users| ==> !IsPrincipal(users[j])
    ensures r.Some? ==> exists i :: 0 <= i < |users| && IsPrincipal(users[i]) && r.value == users[i].name
                          && forall j :: 0 <= j < i ==> !IsPrincipal(users[j])
  {
    match FindIndex(IsPrincipal, users)
    case None => None
    case Some(i) => Some(users[i].name)
  }

  // ---------------------------------------------------------------------------
  // subjects and their results

  predicate IsActive(subjectId: string, active: seq<Subject>) {
    exists a :: a in active && a.id == subjectId
  }

  /** The subjects on the report: those among all subjects that the student's own list names
      and that are active, or every active subject when the list is empty. */
  function ReportSubjects(student: Student, allSubjects: seq<Subject>, active: seq<Subject>): (r: seq<Subject>)
    ensures |student.subjects| > 0 ==>
              forall s :: s in r <==> s in allSubjects && s.id in student.subjects && IsActive(s.id, active)
    ensures |student.subjects| == 0 ==> r == active
    ensures forall i :: 0 <= i < |r| ==> IsActive(r[i].id, active)
  {
    if |student.subjects| > 0 then
      Filter((s: Subject) => s.id in student.subjects && IsActive(s.id, active), allSubjects)
    else
      assert forall i :: 0 <= i < |active| ==> active[i] in active;
      active
  }

  /** One exam component of a subject result. */
  datatype ComponentLine = ComponentLine(sessionId: string, sessionName: string, score: Option<int>, grade: GradePoint)

  function ComponentLines(sessions: seq<ExamSession>, marks: seq<Mark>, studentId: string, subjectId: string): (r: seq<ComponentLine>)
    ensures |r| == |sessions|
    ensures forall i :: 0 <= i < |r| ==>
              && r[i].sessionId == sessions[i].id
              && r[i].score == ScoreOf(marks, studentId, subjectId, sessions[i].id)
              && r[i].grade == GradeOf(r[i].score)
  {
    Map((e: ExamSession) =>
          var score := ScoreOf(marks, studentId, subjectId, e.id);
          ComponentLine(e.id, e.name, score, GradeOf(score)),
        sessions)
  }

  /** The weight of the first session with the given id, 0 when there is none. */
  function SessionWeight(sessions: seq<ExamSession>, sessionId: string): (w: nat)
    ensures DistinctSessionIds(sessions) ==> forall e :: e in sessions && e.id == sessionId ==> w == e.weight
  {
    match Find((e: ExamSession) => e.id == sessionId, sessions)
    case None => 0
    case Some(e) => e.weight
  }

  /** The report's weighted pass: over the components holding a score of at least 0, the sum of
      score times the weight looked up by session id, and the sum of those weights. */
  function ReportWeightedSums(lines: seq<ComponentLine>, sessions: seq<ExamSession>): (int, int) {
    if |lines| == 0 then (0, 0)
    else
      var rest := ReportWeightedSums(lines[1..], sessions);
      var score := lines[0].score;
      if score.Some? && score.value >= 0 then
        var w := SessionWeight(sessions, lines[0].sessionId);
        (rest.0 + score.value * w, rest.1 + w)
      else rest
  }

  /** The report's own copy of the unrounded subject term score. */
  function ReportUnrounded(mode: CalcMode, sessions: seq<ExamSession>, lines: seq<ComponentLine>): Option<real> {
    var scores := Present(Map((l: ComponentLine) => l.score, lines));
    if |scores| == 0 then None
    else if !(exists v :: v in scores && v >= 0) then Some(if Malpractice in scores then Malpractice as real else Absent as real)
    else if mode == SimpleAverage then
      var forCalc := Filter((v: int) => v >= 0, scores);
      if |forCalc| > 0 then Some(Sum(forCalc) as real / |forCalc| as real) else None
    else
      var sums := ReportWeightedSums(lines, sessions);
      if sums.1 > 0 then Some(sums.0 as real / sums.1 as real) else None
  }

  lemma {:induction false} ReportSumsAgree(lines: seq<ComponentLine>, sessions: seq<ExamSession>, cs: seq<Component>)
    requires |lines| == |cs|
    requires forall i :: 0 <= i < |cs| ==> lines[i].score == cs[i].score && SessionWeight(sessions, lines[i].sessionId) == cs[i].weight
    ensures ReportWeightedSums(lines, sessions) == (WeightedSum(cs), WeightSum(cs))
  {
    if |lines| > 0 {
      ReportSumsAgree(lines[1..], sessions, cs[1..]);
    }
  }

  /** With distinct session ids, the report's copy of the unrounded score equals the reference
      definition. */
  lemma ReportUnroundedAgrees(mode: CalcMode, sessions: seq<ExamSession>, marks: seq<Mark>, studentId: string, subjectId: string)
    ensures DistinctSessionIds(sessions) ==>
              ReportUnrounded(mode, sessions, ComponentLines(sessions, marks, studentId, subjectId))
              == Combine(mode, Components(sessions, marks, studentId, subjectId))
  {
    if DistinctSessionIds(sessions) {
      DistinctAgree(mode, sessions, marks, studentId, subjectId);
    }
  }

  lemma DistinctAgree(mode: CalcMode, sessions: seq<ExamSession>, marks: seq<Mark>, studentId: string, subjectId: string)
    requires DistinctSessionIds(sessions)
    ensures ReportUnrounded(mode, sessions, ComponentLines(sessions, marks, studentId, subjectId))
            == Combine(mode, Components(sessions, marks, studentId, subjectId))
  {
    var lines := ComponentLines(sessions, marks, studentId, subjectId);
    var cs := Components(sessions, marks, studentId, subjectId);
    LinesMatch(sessions, marks, studentId, subjectId);
    UnroundedByCases(mode, sessions, lines, cs);
  }

  lemma LinesMatch(sessions: seq<ExamSession>, marks: seq<Mark>, studentId: string, subjectId: string)
    requires DistinctSessionIds(sessions)
    ensures var lines := ComponentLines(sessions, marks, studentId, subjectId);
            var cs := Components(sessions, marks, studentId, subjectId);
            && Map((l: ComponentLine) => l.score, lines) == Scores(cs)
            && ReportWeightedSums(lines, sessions) == (WeightedSum(cs), WeightSum(cs))
  {
    var lines := ComponentLines(sessions, marks, studentId, subjectId);
    var cs := Components(sessions, marks, studentId, subjectId);
    forall i | 0 <= i < |cs|
      ensures SessionWeight(sessions, lines[i].sessionId) == cs[i].weight
    {
      assert sessions[i] in sessions;
    }
    ReportSumsAgree(lines, sessions, cs);
  }

  lemma UnroundedByCases(mode: CalcMode, sessions: seq<ExamSession>, lines: seq<ComponentLine>, cs: seq<Component>)
    requires Map((l: ComponentLine) => l.score, lines) == Scores(cs)
    requires ReportWeightedSums(lines, sessions) == (WeightedSum(cs), WeightSum(cs))
    ensures ReportUnrounded(mode, sessions, lines) == Combine(mode, cs)
  {
    EnteredFacts(cs);
    NonNegativeScores(cs);
    if NoneEntered(cs) {
    } else if ValidCount(cs) == 0 {
    } else if mode == SimpleAverage {
    } else {
    }
  }

  /** One subject's row on the report. */
  datatype SubjectResult = SubjectResult(
    subjectId: string,
    subjectName: string,
    score: Option<int>,
    grade: GradePoint,
    teacherInitials: string,
    components: seq<ComponentLine>)

  function ResultFor(student: Student, term: Term, db: Records, subject: Subject): (r: SubjectResult)
    ensures r.subjectId == subject.id && r.grade == GradeOf(r.score)
    ensures |r.components| == |TermSessions(db.sessions, term.id)|
    ensures DistinctSessionIds(db.sessions) ==> r.score == ReferenceScore(student, term, db, subject.id)
  {
    var sessions := TermSessions(db.sessions, term.id);
    var lines := ComponentLines(sessions, db.marks, student.id, subject.id);
    var score := FinalScore(ReportUnrounded(term.mode, sessions, lines));
    ReportUnroundedAgrees(term.mode, sessions, db.marks, student.id, subject.id);
    SubjectResult(subject.id, subject.name, score, GradeOf(score),
                  SubjectTeacherInitials(db.users, student.classId, subject.id), lines)
  }

  function Results(student: Student, term: Term, db: Records): (r: seq<SubjectResult>)
    ensures |r| == |ReportSubjects(student, db.subjects, db.activeSubjects)|
    ensures forall i :: 0 <= i < |r| ==>
              && r[i].subjectId == ReportSubjects(student, db.subjects, db.activeSubjects)[i].id
              && r[i].grade == GradeOf(r[i].score)
              && IsActive(r[i].subjectId, db.activeSubjects)
    ensures DistinctSessionIds(db.sessions) ==>
              forall i :: 0 <= i < |r| ==> r[i].score == ReferenceScore(student, term, db, r[i].subjectId)
  {
    Map((s: Subject) => ResultFor(student, term, db, s), ReportSubjects(student, db.subjects, db.activeSubjects))
  }

  // ---------------------------------------------------------------------------
  // totals

  datatype Totals = Totals(
    totalWeightedMarks: int,
    maxTotalMarks: int,
    meanWeightedScore: Option<real>,
    meanTermPoints: Option<real>,
    overallTermGrade: string)

  /** Scores as they enter the report total: only non-negative scores. */
  function ResultMarks(results: seq<SubjectResult>): int {
    Sum(Map((r: SubjectResult) => Marks(r.score), Filter((r: SubjectResult) => r.score.Some? && r.score.value >= 0, results)))
  }

  /** The report total counts each subject's score, with missing scores and sentinels as 0. */
  lemma {:induction false} ResultMarksAsSum(results: seq<SubjectResult>)
    ensures ResultMarks(results) == Sum(Map((r: SubjectResult) => Marks(r.score), results))
  {
    if |results| > 0 {
      ResultMarksAsSum(results[1..]);
      var keep := (r: SubjectResult) => r.score.Some? && r.score.value >= 0;
      var rest := Filter(keep, results[1..]);
      assert Map((r: SubjectResult) => Marks(r.score), results)[1..] == Map((r: SubjectResult) => Marks(r.score), results[1..]);
      if keep(results[0]) {
        assert Filter(keep, results) == [results[0]] + rest;
        var m := Map((r: SubjectResult) => Marks(r.score), [results[0]] + rest);
        assert m[1..] == Map((r: SubjectResult) => Marks(r.score), rest);
      }
    }
  }

  function ResultPoints(results: seq<SubjectResult>): int {
    Sum(Map((r: SubjectResult) => r.grade.points, results))
  }

  /** Every result holds a storable score (or none) and points of the grading table. */
  predicate ResultsValid(results: seq<SubjectResult>) {
    forall i :: 0 <= i < |results| ==>
      (results[i].score.Some? ==> ValidScore(results[i].score.value)) && 0 <= results[i].grade.points <= 12
  }

  /** Totals over every subject on the report, including those without a score: the maximum is
      100 per subject, the mean score is the total as a percentage of that maximum, and the mean
      points divide the points by the number of subjects. */
  function ReportTotals(results: seq<SubjectResult>): (t: Totals)
    ensures t.maxTotalMarks == 100 * |results|
    ensures t.totalWeightedMarks == Sum(Map((r: SubjectResult) => Marks(r.score), results))
    ensures t.meanWeightedScore.None? <==> |results| == 0
    ensures t.meanTermPoints.None? <==> |results| == 0
    ensures t.meanWeightedScore == Percent(t.totalWeightedMarks, t.maxTotalMarks)
    ensures t.meanTermPoints == Mean(ResultPoints(results), |results|)
    ensures t.overallTermGrade == GradeOfMean(t.meanWeightedScore)
  {
    ResultMarksAsSum(results);
    var total := ResultMarks(results);
    var maxTotal := |results| * 100;
    Totals(total, maxTotal, Percent(total, maxTotal), Mean(ResultPoints(results), |results|), GradeOfMean(Percent(total, maxTotal)))
  }

  /** `total` as a percentage of `maxTotal`, when there is a maximum. */
  function Percent(total: int, maxTotal: int): (m: Option<real>)
    ensures m.None? <==> maxTotal <= 0
    ensures m.Some? ==> m.value * maxTotal as real == total as real * 100.0
  {
    if maxTotal > 0 then
      var q := total as real / maxTotal as real;
      assert q * maxTotal as real == total as real;
      assert q * 100.0 * maxTotal as real == q * maxTotal as real * 100.0;
      Some(q * 100.0)
    else None
  }

  /** `sum` shared out over `n` items, when there are any. */
  function Mean(sum: int, n: int): (m: Option<real>)
    ensures m.None? <==> n <= 0
    ensures m.Some? ==> m.value * n as real == sum as real
  {
    if n > 0 then Some(sum as real / n as real) else None
  }

  /** With valid results the total stays within the maximum, the mean score within 0..100 and
      the mean points within 0..12. */
  lemma TotalsBounds(results: seq<SubjectResult>)
    requires ResultsValid(results)
    ensures var t := ReportTotals(results);
            && 0 <= t.totalWeightedMarks <= t.maxTotalMarks
            && (t.meanWeightedScore.Some? ==> 0.0 <= t.meanWeightedScore.value <= 100.0)
            && (t.meanTermPoints.Some? ==> 0.0 <= t.meanTermPoints.value <= 12.0)
  {
    var marks := Map((r: SubjectResult) => Marks(r.score), results);
    var points := Map((r: SubjectResult) => r.grade.points, results);
    SumBounds(marks, 0, 100);
    SumBounds(points, 0, 12);
    if |results| > 0 {
      RatioWithin(Sum(marks), |results| * 100, 0, 1);
      RatioWithin(Sum(points), |results|, 0, 12);
    }
  }

  // ---------------------------------------------------------------------------
  // comments

  /** The band of mean points that selects the comments. */
  datatype CommentBand = Outstanding | WellDone | Promising | Improving | Struggling | Unassessed

  function Band(meanPoints: Option<real>): (b: CommentBand)
    ensures b == Unassessed <==> meanPoints.None?
    ensures b == Outstanding <==> meanPoints.Some? && meanPoints.value >= 10.0
    ensures b == WellDone <==> meanPoints.Some? && 7.0 <= meanPoints.value < 10.0
    ensures b == Promising <==> meanPoints.Some? && 5.0 <= meanPoints.value < 7.0
    ensures b == Improving <==> meanPoints.Some? && 0.0 < meanPoints.value < 5.0
    ensures b == Struggling <==> meanPoints.Some? && meanPoints.value <= 0.0
  {
    match meanPoints
    case None => Unassessed
    case Some(p) =>
      if p >= 10.0 then Outstanding
      else if p >= 7.0 then WellDone
      else if p >= 5.0 then Promising
      else if p > 0.0 then Improving
      else Struggling
  }

  /** Position of an assessed band, worst first. */
  function Level(b: CommentBand): nat {
    match b
    case Struggling => 0
    case Improving => 1
    case Promising => 2
    case WellDone => 3
    case Outstanding => 4
    case Unassessed => 0
  }

  /** More mean points never give a worse band. */
  lemma BandMonotone(x: real, y: real)
    requires x <= y
    ensures Level(Band(Some(x))) <= Level(Band(Some(y)))
  {
  }

  function PrincipalComment(b: CommentBand): string {
    match b
    case Outstanding => "Excellent performance! Your hard work is commendable. Aim for the stars!"
    case WellDone => "Very good progress. Continue to strive for excellence."
    case Promising => "Good effort. With more focus, you can achieve even better."
    case Improving => "There's room for improvement. Let's work together to identify and address challenges."
    case Struggling => "Significant effort is required. Please see the class teacher for guidance."
    case Unassessed => "Satisfactory progress. Keep up the effort."
  }

  function ClassTeacherComment(b: CommentBand, first: string): string {
    match b
    case Outstanding => "Outstanding work, " + first + "! Your dedication is inspiring. Keep challenging yourself."
    case WellDone => "Well done, " + first + "! You are making great strides. Maintain this momentum."
    case Promising => first + " is showing good potential. Consistent revision will yield significant improvements."
    case Improving => first + ", let's focus on building stronger foundations in key areas. I'm here to help."
    case Struggling => first + ", we need to discuss strategies for improvement. Please make time to see me."
    case Unassessed => first + " has shown consistent effort. Focus on areas of improvement for even better results."
  }

  /** The text of the student's name before the first space. */
  function FirstName(name: string): (r: string)
    ensures r <= name && ' ' !in r
  {
    BeforeFirst(name, ' ')
  }

  /** Every class-teacher comment addresses the student by first name. */
  lemma CommentNamesStudent(b: CommentBand, first: string)
    ensures Occurs(first, ClassTeacherComment(b, first))
  {
    var c := ClassTeacherComment(b, first);
    var k := match b
      case Outstanding => |"Outstanding work, "|
      case WellDone => |"Well done, "|
      case _ => 0;
    assert c[k..k + |first|] == first;
    assert OccursAt(first, c, k);
  }

  // ---------------------------------------------------------------------------
  // rank within class and stream

  /** What the in-report ranking sorts on: mean points and the always-present total. */
  function StandingOf(s: Summary): Standing {
    Standing(if s.meanTermPoints.Some? then s.meanTermPoints.value else 0.0, Some(s.totalWeightedMarks))
  }

  /** A classmate counted in the ranking: same class and stream, and a mean to rank on. */
  predicate RankedMate(student: Student, term: Term, db: Records, s: Student) {
    s.classId == student.classId && s.stream == student.stream && Summarize(s, term, db).meanTermPoints.Some?
  }

  function InGroup(student: Student): Student -> bool {
    (s: Student) => s.classId == student.classId && s.stream == student.stream
  }

  function SummaryOf(term: Term, db: Records): Student -> Summary {
    (s: Student) => Summarize(s, term, db)
  }

  predicate Assessed(x: Summary) {
    x.meanTermPoints.Some?
  }

  function Mates(student: Student, term: Term, db: Records): Student -> bool {
    (s: Student) => RankedMate(student, term, db, s)
  }

  /** The summaries ranked for the student's report, in record order. */
  function RankedSummaries(student: Student, term: Term, db: Records): (r: seq<Summary>)
    ensures forall x :: x in r ==> x.meanTermPoints.Some?
    ensures |r| == Count(Mates(student, term, db), db.students)
  {
    FilterMapFilterLength(InGroup(student), SummaryOf(term, db), Assessed, Mates(student, term, db), db.students);
    Filter(Assessed, Map(SummaryOf(term, db), Filter(InGroup(student), db.students)))
  }

  /** The ranking order: strictly better standing first, ties kept in record order. */
  function SortedRanking(ranked: seq<Summary>): seq<Summary> {
    SortBy(ranked, RankOrder())
  }

  function IsStudent(id: string): Summary -> bool {
    (x: Summary) => x.studentId == id
  }

  function RankOrder(): (Summary, Summary) -> bool {
    (a: Summary, b: Summary) => Better(StandingOf(a), StandingOf(b))
  }

  lemma SameMembers<T>(s: seq<T>, t: seq<T>)
    requires multiset(s) == multiset(t)
    ensures forall x :: x in s <==> x in t
  {
    forall x
      ensures x in s <==> x in t
    {
      assert x in s <==> x in multiset(s);
      assert x in t <==> x in multiset(t);
    }
  }

  datatype ClassRank = ClassRank(rank: Option<nat>, outOf: nat)

  /** The rank of the first entry of student `id` in ranking order, if it has one. */
  function RankWithin(ranked: seq<Summary>, id: string): (r: Option<nat>)
    ensures r.None? <==> forall x :: x in ranked ==> x.studentId != id
    ensures r.Some? ==> 1 <= r.value <= |ranked|
  {
    var sorted := SortedRanking(ranked);
    SameMembers(ranked, sorted);
    RankOfFirst(sorted, RunningRanks(Map(StandingOf, sorted)), IsStudent(id))
  }

  /** The student's rank among the ranked summaries of the class and stream, and how many were
      ranked. */
  function RankInClass(student: Student, term: Term, db: Records): (r: ClassRank)
    ensures r.outOf == Count(Mates(student, term, db), db.students)
    ensures r.rank.None? <==> forall x :: x in RankedSummaries(student, term, db) ==> x.studentId != student.id
    ensures r.rank.Some? ==> 1 <= r.rank.value <= r.outOf
  {
    var ranked := RankedSummaries(student, term, db);
    ClassRank(RankWithin(ranked, student.id), |ranked|)
  }

  /** The report's rank is competition ranking within the class and stream: one more than the
      number of ranked classmates with strictly more mean points, or equal points and a strictly
      larger total. */
  lemma RankCountsBetter(student: Student, term: Term, db: Records)
    ensures var r := RankInClass(student, term, db);
            var ranked := RankedSummaries(student, term, db);
            r.rank.Some? ==> exists x :: x in ranked && x.studentId == student.id
                                        && r.rank.value == 1 + CountBetter(Map(StandingOf, ranked), StandingOf(x))
  {
    var ranked := RankedSummaries(student, term, db);
    if RankWithin(ranked, student.id).Some? {
      var x := SortedRankCounts(ranked, student.id);
    }
  }

  /** The student's entry behind a rank found in the ranking order, with its count. */
  lemma SortedRankCounts(ranked: seq<Summary>, id: string) returns (x: Summary)
    requires RankWithin(ranked, id).Some?
    ensures x in ranked && x.studentId == id
    ensures RankWithin(ranked, id).value == 1 + CountBetter(Map(StandingOf, ranked), StandingOf(x))
  {
    var sorted := SortedRanking(ranked);
    var standings := Map(StandingOf, sorted);
    var r := RankWithin(ranked, id);
    assert r == RankOfFirst(sorted, RunningRanks(standings), IsStudent(id));
    SortedStandings(ranked);
    RunningIsCompetition(standings);
    CompetitionRanksCount(standings);
    var i :| 0 <= i < |sorted| && IsStudent(id)(sorted[i]) && r.value == RunningRanks(standings)[i];
    x := sorted[i];
    assert x in multiset(ranked);
    assert standings[i] == StandingOf(x);
    CountMultiset(BetterThan(StandingOf(x)), standings, Map(StandingOf, ranked));
  }

  /** The standings in ranking order are sorted, all carry a total, and are those of the input. */
  lemma SortedStandings(ranked: seq<Summary>)
    ensures var standings := Map(StandingOf, SortedRanking(ranked));
            && SortedBy(standings, Better)
            && UniformTotals(standings)
            && multiset(standings) == multiset(Map(StandingOf, ranked))
  {
    var standings := Map(StandingOf, SortedRanking(ranked));
    SortByMap(StandingOf, ranked, RankOrder(), Better);
    BetterOrder();
    SortBySorted(Map(StandingOf, ranked), Better);
    assert forall i :: 0 <= i < |standings| ==> standings[i].total.Some?;
  }

  // ---------------------------------------------------------------------------
  // the report

  datatype Report = Report(
    student: Student,
    classInfo: SchoolClass,
    term: Term,
    results: seq<SubjectResult>,
    totals: Totals,
    principalComment: string,
    classTeacherComment: string,
    rank: Option<nat>,
    totalStudentsInClass: nat,
    classTeacherName: Option<string>,
    principalName: Option<string>)

  /** The student's class record, looked up by id. */
  function ClassOf(student: Student, classes: seq<SchoolClass>): (r: Option<SchoolClass>)
    ensures r.None? <==> forall c :: c in classes ==> c.id != student.classId
    ensures r.Some? ==> r.value in classes && r.value.id == student.classId
  {
    var r := Find((c: SchoolClass) => c.id == student.classId, classes);
    assert r.None? ==> forall c :: c in classes ==> c.id != student.classId;
    r
  }

  /** The report card, or `None` when the student's class is not on record. */
  function GenerateReport(student: Student, term: Term, db: Records): (r: Option<Report>)
    ensures r.None? <==> forall c :: c in db.classes ==> c.id != student.classId
    ensures r.Some? ==> r.value.classInfo in db.classes && r.value.classInfo.id == student.classId
    ensures r.Some? ==> r.value.student == student && r.value.term == term
    ensures r.Some? ==> forall i :: 0 <= i < |r.value.results| ==> IsActive(r.value.results[i].subjectId, db.activeSubjects)
    ensures r.Some? && DistinctSessionIds(db.sessions) ==>
              forall i :: 0 <= i < |r.value.results| ==>
                r.value.results[i].score == ReferenceScore(student, term, db, r.value.results[i].subjectId)
    ensures r.Some? ==> r.value.totals.maxTotalMarks == 100 * |r.value.results|
    ensures r.Some? ==> r.value.totalStudentsInClass == Count(Mates(student, term, db), db.students)
    ensures r.Some? ==> (r.value.rank.Some? ==> 1 <= r.value.rank.value <= r.value.totalStudentsInClass)
    ensures r.Some? ==> Occurs(FirstName(student.name), r.value.classTeacherComment)
    ensures r.Some? ==> r.value.results == Results(student, term, db) && r.value.totals == ReportTotals(r.value.results)
    ensures r.Some? ==> r.value.rank == RankInClass(student, term, db).rank
    ensures r.Some? ==>
              (r.value.rank.None? <==> forall x :: x in RankedSummaries(student, term, db) ==> x.studentId != student.id)
    ensures r.Some? ==> (r.value.totals.meanTermPoints.None? <==> |r.value.results| == 0)
  {
    match ClassOf(student, db.classes)
    case None => None
    case Some(classInfo) =>
      var results := Results(student, term, db);
      var totals := ReportTotals(results);
      var band := Band(totals.meanTermPoints);
      var first := FirstName(student.name);
      var rank := RankInClass(student, term, db);
      CommentNamesStudent(band, first);
      Some(Report(student, classInfo, term, results, totals,
                  PrincipalComment(band), ClassTeacherComment(band, first),
                  rank.rank, rank.outOf,
                  ClassTeacherName(db.users, student.classId), PrincipalName(db.users)))
  }

  /** With storable marks and distinct session ids, the report's totals and means stay in range. */
  lemma ReportBounds(student: Student, term: Term, db: Records)
    requires ValidMarks(db.marks) && DistinctSessionIds(db.sessions)
    ensures var r := GenerateReport(student, term, db);
            r.Some? ==>
              && 0 <= r.value.totals.totalWeightedMarks <= r.value.totals.maxTotalMarks
              && (r.value.totals.meanWeightedScore.Some? ==> 0.0 <= r.value.totals.meanWeightedScore.value <= 100.0)
              && (r.value.totals.meanTermPoints.Some? ==> 0.0 <= r.value.totals.meanTermPoints.value <= 12.0)
  {
    var results := Results(student, term, db);
    ReportResultsValid(student, term, db);
    TotalsBounds(results);
    var r := GenerateReport(student, term, db);
    assert r.Some? ==> r.value.totals == ReportTotals(results);
  }

  /** Every subject line of a report holds a storable score (or none) and points in 0..12. */
  lemma ReportResultsValid(student: Student, term: Term, db: Records)
    requires ValidMarks(db.marks) && DistinctSessionIds(db.sessions)
    ensures ResultsValid(Results(student, term, db))
  {
    var results := Results(student, term, db);
    var subjects := ReportSubjects(student, db.subjects, db.activeSubjects);
    forall i | 0 <= i < |results|
      ensures (results[i].score.Some? ==> ValidScore(results[i].score.value)) && 0 <= results[i].grade.points <= 12
    {
      assert results[i] == ResultFor(student, term, db, subjects[i]);
      ResultForValid(student, term, db, subjects[i]);
    }
  }

  lemma ResultForValid(student: Student, term: Term, db: Records, subject: Subject)
    requires ValidMarks(db.marks) && DistinctSessionIds(db.sessions)
    ensures var r := ResultFor(student, term, db, subject);
            (r.score.Some? ==> ValidScore(r.score.value)) && 0 <= r.grade.points <= 12
  {
    var sessions := TermSessions(db.sessions, term.id);
    ComponentsValid(sessions, db.marks, student.id, subject.id);
    TermScoreValid(term.mode, Components(sessions, db.marks, student.id, subject.id));
    PointsRange(ResultFor(student, term, db, subject).score);
  }
}

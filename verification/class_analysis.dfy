/** The analysis of a class, a stream or the whole school for one term: the group's mean
    points and grade, its grade distribution, and per subject the mean score, the grade
    distribution and the students ranked by score.

    The analysis is written over a summary function `summarize` and instantiated with the
    term summary. */
module ClassAnalysis {
  import opened Wrappers
  import opened Collections
  import opened Sorting
  import opened Types
  import opened Grading
  import opened SubjectScore
  import opened Ranking
  import opened TermSummary
  import opened StudentReport

  // ---------------------------------------------------------------------------
  // grade distributions

  /** The grades of the table. */
  function GradeSet(): set<string> {
    set i | 0 <= i < |GradingScale| :: GradingScale[i].grade
  }

  function IsGrade(g: string): string -> bool {
    (x: string) => x == g
  }

  /** Every grade of the table with a zero count. */
  function InitialDistribution(): (d: map<string, nat>)
    ensures d.Keys == GradeSet()
    ensures forall g :: g in d ==> d[g] == 0
  {
    map g | g in GradeSet() :: 0
  }

  /** Counts the grades, in order, into the initial distribution; a grade outside the table is
      not counted. */
  function Tally(grades: seq<string>): (d: map<string, nat>)
    ensures d.Keys == GradeSet()
    ensures forall g :: g in d ==> d[g] == Count(IsGrade(g), grades)
  {
    if |grades| == 0 then InitialDistribution()
    else
      var n := |grades| - 1;
      var prev := Tally(grades[..n]);
      var g := grades[n];
      assert grades == grades[..n] + [g];
      assert forall h :: Count(IsGrade(h), grades) == Count(IsGrade(h), grades[..n]) + Count(IsGrade(h), [g]) by {
        forall h {
          CountAppend(IsGrade(h), grades[..n], [g]);
        }
      }
      if g in prev then prev[g := prev[g] + 1] else prev
  }

  // ---------------------------------------------------------------------------
  // means

  /** `m` is the mean of `n` values summing to `total`. */
  predicate IsMean(m: real, total: real, n: nat) {
    m * n as real == total
  }

  /** The mean of `n` values summing to `total`. */
  function MeanReal(total: real, n: nat): (m: real)
    requires n > 0
    ensures IsMean(m, total, n)
  {
    total / n as real
  }

  // ---------------------------------------------------------------------------
  // per-subject analysis

  /** A student's entered score in one subject. */
  datatype SubjectEntry = SubjectEntry(studentId: string, studentName: string, admissionNumber: string, score: int)

  datatype RankedEntry = RankedEntry(entry: SubjectEntry, rank: nat, grade: string)

  datatype SubjectAnalysis = SubjectAnalysis(
    subjectId: string,
    subjectName: string,
    meanScore: Option<real>,
    gradeDistribution: map<string, nat>,
    rankedStudents: seq<RankedEntry>,
    studentCount: nat)

  /** The summary's score in the subject, `None` when it has none or no entry for it. */
  function ScoreIn(x: Summary, subjectId: string): Option<int> {
    if subjectId in x.subjectScores then x.subjectScores[subjectId] else None
  }

  function HasScoreIn(subjectId: string): Summary -> bool {
    (x: Summary) => ScoreIn(x, subjectId).Some?
  }

  function HasId(id: string): Student -> bool {
    (s: Student) => s.id == id
  }

  /** The entry for a summary, with the name and admission number of the first group member
      carrying its student id. */
  function EntryOf(x: Summary, group: seq<Student>, score: int): (e: SubjectEntry)
    ensures e.studentId == x.studentId && e.score == score
  {
    match Find(HasId(x.studentId), group)
    case Some(s) => SubjectEntry(x.studentId, s.name, s.admissionNumber, score)
    case None => SubjectEntry(x.studentId, "", "", score)
  }

  /** One entry per summary with a score in the subject, in summary order. */
  function Entries(summaries: seq<Summary>, group: seq<Student>, subjectId: string): (r: seq<SubjectEntry>)
    ensures |r| == Count(HasScoreIn(subjectId), summaries)
    ensures forall e :: e in r ==> exists x :: x in summaries && x.studentId == e.studentId && ScoreIn(x, subjectId) == Some(e.score)
  {
    if |summaries| == 0 then []
    else
      var x := summaries[0];
      var rest := Entries(summaries[1..], group, subjectId);
      assert forall y :: y in summaries[1..] ==> y in summaries;
      match ScoreIn(x, subjectId)
      case None => rest
      case Some(v) => [EntryOf(x, group, v)] + rest
  }

  function NonNegative(e: SubjectEntry): bool {
    e.score >= 0
  }

  function EntryScore(e: SubjectEntry): int {
    e.score
  }

  function EntryGrade(e: SubjectEntry): string {
    GradeOf(Some(e.score)).grade
  }

  /** Higher score first; equal scores keep their order. */
  function ScoreOrder(): (SubjectEntry, SubjectEntry) -> bool {
    (a: SubjectEntry, b: SubjectEntry) => a.score > b.score
  }

  /** A score as a standing with no total, for the running rank counter. */
  function EntryStanding(e: SubjectEntry): Standing {
    Standing(e.score as real, None)
  }

  function Above(score: int): SubjectEntry -> bool {
    (e: SubjectEntry) => e.score > score
  }

  /** Entries sorted by score, with running ranks and grades. */
  function RankEntries(entries: seq<SubjectEntry>): (r: seq<RankedEntry>)
    ensures |r| == |entries|
  {
    var sorted := SortBy(entries, ScoreOrder());
    var ranks := RunningRanks(Map(EntryStanding, sorted));
    seq(|sorted|, i requires 0 <= i < |sorted| => RankedEntry(sorted[i], ranks[i], EntryGrade(sorted[i])))
  }

  function EntryOfRanked(r: RankedEntry): SubjectEntry {
    r.entry
  }

  /** The ranked list holds the entries rearranged, highest score first, each with its grade. */
  lemma RankEntriesOrdered(entries: seq<SubjectEntry>)
    ensures var r := RankEntries(entries);
            && multiset(Map(EntryOfRanked, r)) == multiset(entries)
            && (forall i, j :: 0 <= i < j < |r| ==> r[i].entry.score >= r[j].entry.score)
            && (forall i :: 0 <= i < |r| ==> r[i].grade == EntryGrade(r[i].entry))
  {
    var sorted := SortBy(entries, ScoreOrder());
    var r := RankEntries(entries);
    assert Map(EntryOfRanked, r) == sorted;
    SortBySorted(entries, ScoreOrder());
    forall i, j | 0 <= i < j < |r|
      ensures r[i].entry.score >= r[j].entry.score
    {
      assert !ScoreOrder()(sorted[j], sorted[i]);
    }
  }

  /** Each entry's rank is one more than the number of entries with a strictly higher score. */
  lemma RankEntriesRanks(entries: seq<SubjectEntry>)
    ensures var r := RankEntries(entries);
            forall i :: 0 <= i < |r| ==> r[i].rank == 1 + Count(Above(r[i].entry.score), entries)
  {
    var sorted := SortBy(entries, ScoreOrder());
    var r := RankEntries(entries);
    SortBySorted(entries, ScoreOrder());
    var st := Map(EntryStanding, sorted);
    SortedStandings(sorted);
    RunningIsCompetition(st);
    CompetitionRanksCount(st);
    forall i | 0 <= i < |r|
      ensures r[i].rank == 1 + Count(Above(r[i].entry.score), entries)
    {
      RankCount(sorted, entries, i);
    }
  }

  lemma RankCount(sorted: seq<SubjectEntry>, entries: seq<SubjectEntry>, i: nat)
    requires multiset(sorted) == multiset(entries) && i < |sorted|
    ensures var st := Map(EntryStanding, sorted);
            CountBetter(st, st[i]) == Count(Above(sorted[i].score), entries)
  {
    var st := Map(EntryStanding, sorted);
    CountMap(BetterThan(st[i]), EntryStanding, Above(sorted[i].score), sorted);
    CountMultiset(Above(sorted[i].score), sorted, entries);
  }

  /** Entries sorted by score have standings sorted by `Better`. */
  lemma SortedStandings(sorted: seq<SubjectEntry>)
    requires SortedBy(sorted, ScoreOrder())
    ensures SortedBy(Map(EntryStanding, sorted), Better)
  {
    var st := Map(EntryStanding, sorted);
    forall i, j | 0 <= i < j < |st|
      ensures !Better(st[j], st[i])
    {
      assert !ScoreOrder()(sorted[j], sorted[i]);
      assert st[i] == Standing(sorted[i].score as real, None) && st[j] == Standing(sorted[j].score as real, None);
      assert sorted[j].score <= sorted[i].score;
      assert (sorted[j].score as real) <= (sorted[i].score as real);
    }
  }

  /** The analysis of one subject over the group's summaries. */
  function AnalyzeSubject(subject: Subject, summaries: seq<Summary>, group: seq<Student>): (r: SubjectAnalysis)
    ensures r.subjectId == subject.id && r.subjectName == subject.name
    ensures r.studentCount == Count(HasScoreIn(subject.id), summaries)
    ensures r.meanScore.None? <==> forall e :: e in Entries(summaries, group, subject.id) ==> e.score < 0
    ensures r.meanScore.Some? ==>
              var valid := Filter(NonNegative, Entries(summaries, group, subject.id));
              IsMean(r.meanScore.value, Sum(Map(EntryScore, valid)) as real, |valid|)
    ensures r.meanScore.None? ==> r.gradeDistribution == InitialDistribution() && r.rankedStudents == []
    ensures r.meanScore.Some? ==> r.gradeDistribution == Tally(Map(EntryGrade, Entries(summaries, group, subject.id)))
    ensures r.meanScore.Some? ==> r.rankedStudents == RankEntries(Entries(summaries, group, subject.id))
  {
    var entries := Entries(summaries, group, subject.id);
    if |entries| == 0 then
      SubjectAnalysis(subject.id, subject.name, None, InitialDistribution(), [], 0)
    else
      var valid := Filter(NonNegative, entries);
      if |valid| == 0 then
        assert forall e :: e in entries ==> e.score < 0;
        SubjectAnalysis(subject.id, subject.name, None, InitialDistribution(), [], |entries|)
      else
        assert valid[0] in entries && valid[0].score >= 0;
        var mean := MeanReal(Sum(Map(EntryScore, valid)) as real, |valid|);
        SubjectAnalysis(subject.id, subject.name, Some(mean), Tally(Map(EntryGrade, entries)), RankEntries(entries), |entries|)
  }

  /** With storable marks every non-negative score is at most 100, so the mean stays in 0..100. */
  lemma MeanScoreBounds(entries: seq<SubjectEntry>)
    requires forall e :: e in entries ==> e.score <= 100
    requires |Filter(NonNegative, entries)| > 0
    ensures var valid := Filter(NonNegative, entries);
            0 <= Sum(Map(EntryScore, valid)) <= 100 * |valid|
  {
    var valid := Filter(NonNegative, entries);
    SumBounds(Map(EntryScore, valid), 0, 100);
  }

  // ---------------------------------------------------------------------------
  // the group analysis

  datatype Analysis = Analysis(
    classId: string,
    className: string,
    stream: Option<string>,
    termId: string,
    termName: string,
    year: int,
    overallMeanPoints: real,
    overallMeanGrade: string,
    gradeDistribution: map<string, nat>,
    totalStudents: nat,
    subjectAnalyses: seq<SubjectAnalysis>)

  /** A filter as the source tests it: present and non-empty. */
  predicate Truthy(o: Option<string>) {
    o.Some? && o.value != ""
  }

  /** The group: the class if one is given, and the stream if one is given. */
  function Relevant(classId: Option<string>, stream: Option<string>): Student -> bool {
    (s: Student) => (!Truthy(classId) || s.classId == classId.value) && (!Truthy(stream) || s.stream == stream.value)
  }

  function PointsOf(x: Summary): real {
    if x.meanTermPoints.Some? then x.meanTermPoints.value else 0.0
  }

  function ScoreOrZero(x: Summary): real {
    if x.meanWeightedScore.Some? then x.meanWeightedScore.value else 0.0
  }

  /** The summary's grade, "N/A" standing in for an empty one. */
  function SummaryGrade(x: Summary): string {
    if x.overallTermGrade != "" then x.overallTermGrade else "N/A"
  }

  function Taken(a: SubjectAnalysis): bool {
    a.studentCount > 0
  }

  function SubjectOf(summaries: seq<Summary>, group: seq<Student>): Subject -> SubjectAnalysis {
    (sub: Subject) => AnalyzeSubject(sub, summaries, group)
  }

  function ClassWithId(id: string): SchoolClass -> bool {
    (c: SchoolClass) => c.id == id
  }

  /** The name shown for the group: the named class's name, else "Whole School". */
  function GroupName(classId: Option<string>, classes: seq<SchoolClass>): string {
    if !Truthy(classId) then "Whole School"
    else match Find(ClassWithId(classId.value), classes)
      case Some(c) => if c.name != "" then c.name else "Whole School"
      case None => "Whole School"
  }

  /** A mean of values within `lo..hi` is within `lo..hi`. */
  lemma MeanWithin(m: real, total: real, n: nat, lo: real, hi: real)
    requires n > 0 && IsMean(m, total, n)
    ensures n as real * lo <= total <= n as real * hi ==> lo <= m <= hi
  {
    var nr := n as real;
    assert (m - lo) * nr == total - lo * nr;
    assert (hi - m) * nr == hi * nr - total;
  }

  /** The group's mean points and the grade of its average mean score. */
  datatype Overall = Overall(meanPoints: real, meanGrade: string)

  function OverallOf(summaries: seq<Summary>): (o: Overall)
    requires |summaries| > 0
    ensures IsMean(o.meanPoints, SumReal(Map(PointsOf, summaries)), |summaries|)
    ensures (forall x :: x in summaries ==> 0.0 <= PointsOf(x) <= 12.0) ==> 0.0 <= o.meanPoints <= 12.0
    ensures exists avg :: IsMean(avg, SumReal(Map(ScoreOrZero, summaries)), |summaries|) && o.meanGrade == GradeOf(Some(Round(avg))).grade
  {
    var pts := Map(PointsOf, summaries);
    var meanPoints := MeanReal(SumReal(pts), |summaries|);
    PointsSumWithin(summaries);
    MeanWithin(meanPoints, SumReal(pts), |summaries|, 0.0, 12.0);
    var averageScore := MeanReal(SumReal(Map(ScoreOrZero, summaries)), |summaries|);
    Overall(meanPoints, GradeOf(Some(Round(averageScore))).grade)
  }

  lemma PointsSumWithin(summaries: seq<Summary>)
    ensures (forall x :: x in summaries ==> 0.0 <= PointsOf(x) <= 12.0) ==>
            0.0 <= SumReal(Map(PointsOf, summaries)) <= |summaries| as real * 12.0
  {
    if forall x :: x in summaries ==> 0.0 <= PointsOf(x) <= 12.0 {
      SumRealBounds(Map(PointsOf, summaries), 0.0, 12.0);
    }
  }

  /** The analysis over the summaries of the group's students. */
  function AnalyzeWith(classId: Option<string>, stream: Option<string>, term: Term, students: seq<Student>,
                       classes: seq<SchoolClass>, active: seq<Subject>, summarize: Student -> Summary): (r: Option<Analysis>)
    ensures var group := Filter(Relevant(classId, stream), students);
            r.None? <==> Count(Assessed, Map(summarize, group)) == 0
    ensures r.Some? ==>
              var group := Filter(Relevant(classId, stream), students);
              var summaries := Filter(Assessed, Map(summarize, group));
              && r.value.totalStudents == |summaries| > 0
              && r.value.overallMeanPoints == OverallOf(summaries).meanPoints
              && r.value.gradeDistribution == Tally(Map(SummaryGrade, summaries))
              && (forall a :: a in r.value.subjectAnalyses ==> a.studentCount > 0)
              && r.value.subjectAnalyses == Filter(Taken, Map(SubjectOf(summaries, group), active))
    ensures r.Some? ==> r.value.classId == (if Truthy(classId) then classId.value else "all")
  {
    var group := Filter(Relevant(classId, stream), students);
    var summaries := Filter(Assessed, Map(summarize, group));
    CountIsFilterLength(Assessed, Map(summarize, group));
    if |group| == 0 then None
    else if |summaries| == 0 then None
    else
      var overall := OverallOf(summaries);
      Some(Analysis(
        if Truthy(classId) then classId.value else "all",
        GroupName(classId, classes),
        stream, term.id, term.name, term.year,
        overall.meanPoints,
        overall.meanGrade,
        Tally(Map(SummaryGrade, summaries)),
        |summaries|,
        Filter(Taken, Map(SubjectOf(summaries, group), active))))
  }

  /** The analysis of a class, a stream or the whole school for a term; `None` when no student
      of the group has mean points. */
  function Analyze(classId: Option<string>, stream: Option<string>, term: Term, db: Records): (r: Option<Analysis>)
    ensures r.None? <==> Count(Assessed, Map(SummaryOf(term, db), Filter(Relevant(classId, stream), db.students))) == 0
    ensures r.Some? ==> r.value.termId == term.id && r.value.year == term.year
    ensures r.Some? ==> r.value.totalStudents > 0 && forall a :: a in r.value.subjectAnalyses ==> a.studentCount > 0
  {
    AnalyzeWith(classId, stream, term, db.students, db.classes, db.activeSubjects, SummaryOf(term, db))
  }

  /** With storable marks the group's mean points stay in 0..12. */
  lemma AnalyzeBounds(classId: Option<string>, stream: Option<string>, term: Term, db: Records)
    requires ValidMarks(db.marks)
    ensures var r := Analyze(classId, stream, term, db);
            r.Some? ==> 0.0 <= r.value.overallMeanPoints <= 12.0
  {
    SummariesWithin(Filter(Relevant(classId, stream), db.students), term, db);
    AnalyzeWithBounds(classId, stream, term, db.students, db.classes, db.activeSubjects, SummaryOf(term, db));
  }

  /** When the group's summaries have mean points in 0..12, so has the group. */
  lemma AnalyzeWithBounds(classId: Option<string>, stream: Option<string>, term: Term, students: seq<Student>,
                          classes: seq<SchoolClass>, active: seq<Subject>, summarize: Student -> Summary)
    requires forall x :: x in Filter(Assessed, Map(summarize, Filter(Relevant(classId, stream), students))) ==> 0.0 <= PointsOf(x) <= 12.0
    ensures var r := AnalyzeWith(classId, stream, term, students, classes, active, summarize);
            r.Some? ==> 0.0 <= r.value.overallMeanPoints <= 12.0
  {
  }

  lemma SummariesWithin(group: seq<Student>, term: Term, db: Records)
    requires ValidMarks(db.marks)
    ensures forall x :: x in Filter(Assessed, Map(SummaryOf(term, db), group)) ==> 0.0 <= PointsOf(x) <= 12.0
  {
    var all := Map(SummaryOf(term, db), group);
    forall x | x in Filter(Assessed, all)
      ensures 0.0 <= PointsOf(x) <= 12.0
    {
      var k :| 0 <= k < |all| && all[k] == x;
      var y := Summarize(group[k], term, db);
    }
  }
}

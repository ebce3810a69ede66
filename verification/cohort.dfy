/** Reports across students and terms: the merit list, the class broadsheet, the term-on-term
    performance changes and one student's performance history.

    Each operation is written over a report generator `gen` (a function from a student, or a
    term, to its optional report), and instantiated with `GenerateReport`. */
module Cohort {
  import opened Wrappers
  import opened Collections
  import opened Sorting
  import opened Text
  import opened Types
  import opened Ranking
  import opened StudentReport

  // ---------------------------------------------------------------------------
  // shared pieces

  /** An optional class filter as the source tests it: present and non-empty. */
  predicate Filters(classFilter: Option<string>) {
    classFilter.Some? && classFilter.value != ""
  }

  function InClass(classId: string): Student -> bool {
    (s: Student) => s.classId == classId
  }

  /** The students a cohort operation looks at. */
  function Processed(students: seq<Student>, classFilter: Option<string>): (r: seq<Student>)
    ensures Filters(classFilter) ==> forall s :: s in r <==> s in students && s.classId == classFilter.value
    ensures !Filters(classFilter) ==> r == students
  {
    if Filters(classFilter) then Filter(InClass(classFilter.value), students) else students
  }

  /** The reports of one term. */
  function ReportsIn(term: Term, db: Records): Student -> Option<Report> {
    (s: Student) => GenerateReport(s, term, db)
  }

  /** The reports of one student. */
  function ReportsOf(student: Student, db: Records): Term -> Option<Report> {
    (t: Term) => GenerateReport(student, t, db)
  }

  /** The report exists and has mean points. */
  predicate HasMean(r: Option<Report>) {
    r.Some? && r.value.totals.meanTermPoints.Some?
  }

  function HasMeanBy<T>(gen: T -> Option<Report>): T -> bool {
    (x: T) => HasMean(gen(x))
  }

  /** The generator's report for a student is about that student. */
  ghost predicate KeepsStudent(gen: Student -> Option<Report>) {
    forall s :: gen(s).Some? ==> gen(s).value.student == s
  }

  lemma ReportsInKeepStudent(term: Term, db: Records)
    ensures KeepsStudent(ReportsIn(term, db))
  {
    forall s: Student | ReportsIn(term, db)(s).Some?
      ensures ReportsIn(term, db)(s).value.student == s
    {
      var r := GenerateReport(s, term, db);
    }
  }

  /** The reports with mean points of `students`, in their order. */
  function AssessedReports(students: seq<Student>, gen: Student -> Option<Report>): (r: seq<Report>)
    ensures |r| == Count(HasMeanBy(gen), students)
    ensures forall x :: x in r ==> x.totals.meanTermPoints.Some?
    ensures forall x :: x in r ==> exists s :: s in students && gen(s) == Some(x)
  {
    if |students| == 0 then []
    else
      var rep := gen(students[0]);
      var rest := AssessedReports(students[1..], gen);
      assert forall x :: x in students[1..] ==> x in students;
      if HasMean(rep) then [rep.value] + rest else rest
  }

  /** What the merit list and broadsheet rank a report on. */
  function ReportStanding(r: Report): Standing {
    Standing(if r.totals.meanTermPoints.Some? then r.totals.meanTermPoints.value else 0.0, Some(r.totals.totalWeightedMarks))
  }

  function ReportCandidate(r: Report): Candidate {
    Candidate(ReportStanding(r), r.student.name)
  }

  function MeritOrder(): (Report, Report) -> bool {
    (a: Report, b: Report) => Ahead(ReportCandidate(a), ReportCandidate(b))
  }

  // ---------------------------------------------------------------------------
  // merit list

  datatype MeritEntry = MeritEntry(report: Report, rank: nat)

  function MeritStanding(e: MeritEntry): Standing {
    ReportStanding(e.report)
  }

  /** Sorts reports with the merit comparator and gives competition ranks. */
  function Rank(reports: seq<Report>): (r: seq<MeritEntry>)
    ensures |r| == |reports|
    ensures forall i :: 0 <= i < |r| ==> 1 <= r[i].rank <= i + 1
  {
    var sorted := SortBy(reports, MeritOrder());
    var ranks := CompetitionRanks(Map(ReportStanding, sorted));
    seq(|sorted|, i requires 0 <= i < |sorted| => MeritEntry(sorted[i], ranks[i]))
  }

  /** Ranking orders the entries by the merit comparator. */
  lemma RankOrdered(reports: seq<Report>)
    ensures var r := Rank(reports);
            forall i, j :: 0 <= i < j < |r| ==> Compare(ReportCandidate(r[i].report), ReportCandidate(r[j].report)) <= 0.0
  {
    var sorted := SortBy(reports, MeritOrder());
    var r := Rank(reports);
    AheadOrder();
    SortBySorted(reports, MeritOrder());
    forall i, j | 0 <= i < j < |r|
      ensures Compare(ReportCandidate(r[i].report), ReportCandidate(r[j].report)) <= 0.0
    {
      assert r[i].report == sorted[i] && r[j].report == sorted[j];
      assert !MeritOrder()(sorted[j], sorted[i]);
      CompareMeansAhead(ReportCandidate(sorted[i]), ReportCandidate(sorted[j]));
    }
  }

  /** Ranking keeps exactly the given reports. */
  lemma RankMembers(reports: seq<Report>)
    ensures var r := Rank(reports);
            forall x :: x in reports <==> exists i :: 0 <= i < |r| && r[i].report == x
  {
    var sorted := SortBy(reports, MeritOrder());
    var r := Rank(reports);
    SameMembers(reports, sorted);
    forall x | x in reports
      ensures exists i :: 0 <= i < |r| && r[i].report == x
    {
      var i :| 0 <= i < |sorted| && sorted[i] == x;
      assert r[i].report == x;
    }
    forall i | 0 <= i < |r|
      ensures r[i].report in reports
    {
      assert r[i].report == sorted[i];
    }
  }

  /** Ranking gives each entry one more than the number of entries with a strictly better
      standing, so equal standings share a rank. */
  lemma RankCounts(reports: seq<Report>)
    ensures var r := Rank(reports);
            forall i :: 0 <= i < |r| ==> r[i].rank == 1 + CountBetter(Map(MeritStanding, r), MeritStanding(r[i]))
  {
    var sorted := SortBy(reports, MeritOrder());
    var r := Rank(reports);
    AheadOrder();
    SortBySorted(reports, MeritOrder());
    var standings := Map(ReportStanding, sorted);
    assert Map(MeritStanding, r) == standings;
    SortedByStanding(sorted);
    CompetitionRanksCount(standings);
  }

  /** Reports sorted by the merit order have standings sorted by `Better`. */
  lemma SortedByStanding(sorted: seq<Report>)
    requires SortedBy(sorted, MeritOrder())
    ensures SortedBy(Map(ReportStanding, sorted), Better)
  {
    var st := Map(ReportStanding, sorted);
    forall i, j | 0 <= i < j < |st|
      ensures !Better(st[j], st[i])
    {
      assert !MeritOrder()(sorted[j], sorted[i]);
    }
  }

  /** The merit list: every processed student's report with mean points, best first, with
      competition ranks. */
  function MeritList(term: Term, db: Records, classFilter: Option<string>): (r: seq<MeritEntry>)
    ensures |r| == Count(HasMeanBy(ReportsIn(term, db)), Processed(db.students, classFilter))
    ensures forall i :: 0 <= i < |r| ==> r[i].report.totals.meanTermPoints.Some?
    ensures forall i :: 0 <= i < |r| ==> 1 <= r[i].rank <= i + 1
  {
    var reports := AssessedReports(Processed(db.students, classFilter), ReportsIn(term, db));
    RankMembers(reports);
    Rank(reports)
  }

  /** Every merit-list entry is the report of a processed student, and every processed
      student's report with mean points is on the list. */
  lemma MeritListMembers(term: Term, db: Records, classFilter: Option<string>)
    ensures forall e :: e in MeritList(term, db, classFilter) ==>
              exists s :: s in Processed(db.students, classFilter) && ReportsIn(term, db)(s) == Some(e.report)
    ensures forall s :: s in Processed(db.students, classFilter) && HasMean(ReportsIn(term, db)(s)) ==>
              exists e :: e in MeritList(term, db, classFilter) && Some(e.report) == ReportsIn(term, db)(s)
  {
    var students := Processed(db.students, classFilter);
    var gen := ReportsIn(term, db);
    var reports := AssessedReports(students, gen);
    var r := MeritList(term, db, classFilter);
    RankMembers(reports);
    forall e | e in r
      ensures exists s :: s in students && gen(s) == Some(e.report)
    {
      var i :| 0 <= i < |r| && r[i] == e;
      assert e.report in reports;
    }
    forall s | s in students && HasMean(gen(s))
      ensures exists e :: e in r && Some(e.report) == gen(s)
    {
      AssessedContains(students, gen, s);
      var i :| 0 <= i < |r| && r[i].report == gen(s).value;
      assert r[i] in r;
    }
  }

  lemma {:induction false} AssessedContains(students: seq<Student>, gen: Student -> Option<Report>, s: Student)
    requires s in students && HasMean(gen(s))
    ensures gen(s).value in AssessedReports(students, gen)
  {
    if students[0] != s {
      AssessedContains(students[1..], gen, s);
    }
  }

  // ---------------------------------------------------------------------------
  // broadsheet

  /** One student's row on the class broadsheet. */
  datatype Row = Row(
    studentId: string,
    admissionNumber: string,
    studentName: string,
    classId: string,
    stream: string,
    subjectScores: map<string, Option<int>>,
    totalWeightedMarks: Option<int>,
    meanWeightedScore: Option<real>,
    meanTermPoints: Option<real>,
    overallTermGrade: Option<string>)

  datatype BroadsheetEntry = BroadsheetEntry(row: Row, rank: nat)

  function ForSubject(subjectId: string): SubjectResult -> bool {
    (x: SubjectResult) => x.subjectId == subjectId
  }

  /** Score of the first result for the subject on the report, `None` when there is none. */
  function ResultScore(rep: Option<Report>, subjectId: string): (r: Option<int>)
    ensures r.Some? ==> rep.Some? && exists i :: 0 <= i < |rep.value.results| && rep.value.results[i].subjectId == subjectId && rep.value.results[i].score == r
  {
    if rep.None? then None
    else match FindIndex(ForSubject(subjectId), rep.value.results)
      case None => None
      case Some(i) => rep.value.results[i].score
  }

  /** One score per active subject. */
  function ActiveScores(rep: Option<Report>, active: seq<Subject>): (m: map<string, Option<int>>)
    ensures m.Keys == set i | 0 <= i < |active| :: active[i].id
    ensures forall id :: id in m ==> m[id] == ResultScore(rep, id)
  {
    if |active| == 0 then map[]
    else
      var n := |active| - 1;
      var m := ActiveScores(rep, active[..n]);
      assert forall i :: 0 <= i < n ==> active[..n][i] == active[i];
      assert (set i | 0 <= i < |active| :: active[i].id) == (set i | 0 <= i < n :: active[i].id) + {active[n].id};
      m[active[n].id := ResultScore(rep, active[n].id)]
  }

  /** The row the broadsheet builds for a student and the student's optional report. */
  function RowOf(s: Student, rep: Option<Report>, active: seq<Subject>): (r: Row)
    ensures r.studentId == s.id && r.classId == s.classId && r.studentName == s.name
    ensures r.meanTermPoints.Some? <==> HasMean(rep)
    ensures rep.Some? ==> r.totalWeightedMarks == Some(rep.value.totals.totalWeightedMarks)
    ensures rep.None? ==> r.totalWeightedMarks.None? && r.overallTermGrade.None?
  {
    Row(s.id, s.admissionNumber, s.name, s.classId, s.stream, ActiveScores(rep, active),
        if rep.Some? then Some(rep.value.totals.totalWeightedMarks) else None,
        if rep.Some? then rep.value.totals.meanWeightedScore else None,
        if rep.Some? then rep.value.totals.meanTermPoints else None,
        if rep.Some? then Some(rep.value.totals.overallTermGrade) else None)
  }

  function RowFor(gen: Student -> Option<Report>, active: seq<Subject>): Student -> Row {
    (s: Student) => RowOf(s, gen(s), active)
  }

  predicate RowHasMean(row: Row) {
    row.meanTermPoints.Some?
  }

  function RowStanding(row: Row): Standing {
    Standing(if row.meanTermPoints.Some? then row.meanTermPoints.value else 0.0, row.totalWeightedMarks)
  }

  function RowOrder(): (Row, Row) -> bool {
    (a: Row, b: Row) => Ahead(Candidate(RowStanding(a), a.studentName), Candidate(RowStanding(b), b.studentName))
  }

  /** Rows with mean points for the students, best first, with competition ranks. */
  function RankRows(students: seq<Student>, gen: Student -> Option<Report>, active: seq<Subject>): seq<BroadsheetEntry>
  {
    var rows := Filter(RowHasMean, Map(RowFor(gen, active), students));
    var sorted := SortBy(rows, RowOrder());
    var ranks := CompetitionRanks(Map(RowStanding, sorted));
    seq(|sorted|, i requires 0 <= i < |sorted| => BroadsheetEntry(sorted[i], ranks[i]))
  }

  /** The broadsheet of a class: a row per student of the class with mean points, best first,
      with competition ranks. */
  function Broadsheet(classId: string, term: Term, db: Records): (r: seq<BroadsheetEntry>)
    ensures |r| == Count(HasMeanBy(ReportsIn(term, db)), Filter(InClass(classId), db.students))
    ensures forall i :: 0 <= i < |r| ==> r[i].row.classId == classId && r[i].row.meanTermPoints.Some?
  {
    var inClass := Filter(InClass(classId), db.students);
    if |inClass| == 0 then []
    else
      RankRowsFacts(inClass, ReportsIn(term, db), db.activeSubjects, classId);
      RankRows(inClass, ReportsIn(term, db), db.activeSubjects)
  }

  lemma RankRowsFacts(students: seq<Student>, gen: Student -> Option<Report>, active: seq<Subject>, classId: string)
    requires forall s :: s in students ==> s.classId == classId
    ensures var r := RankRows(students, gen, active);
            && |r| == Count(HasMeanBy(gen), students)
            && forall i :: 0 <= i < |r| ==> r[i].row.meanTermPoints.Some? && r[i].row.classId == classId
  {
    RankRowsLength(students, gen, active);
    RankRowsMembers(students, gen, active, classId);
  }

  lemma RankRowsLength(students: seq<Student>, gen: Student -> Option<Report>, active: seq<Subject>)
    ensures |RankRows(students, gen, active)| == Count(HasMeanBy(gen), students)
  {
    var rows := Filter(RowHasMean, Map(RowFor(gen, active), students));
    var sorted := SortBy(rows, RowOrder());
    RowsCount(students, gen, active);
    assert |multiset(sorted)| == |multiset(rows)|;
  }

  lemma RankRowsMembers(students: seq<Student>, gen: Student -> Option<Report>, active: seq<Subject>, classId: string)
    requires forall s :: s in students ==> s.classId == classId
    ensures var r := RankRows(students, gen, active);
            forall i :: 0 <= i < |r| ==> r[i].row.meanTermPoints.Some? && r[i].row.classId == classId
  {
    var r := RankRows(students, gen, active);
    RowsFromStudents(students, gen, active, classId);
    RankedRowsKept(students, gen, active);
    assert forall i :: 0 <= i < |r| ==> r[i] in r;
  }

  /** Ranking keeps the rows it is given. */
  lemma RankedRowsKept(students: seq<Student>, gen: Student -> Option<Report>, active: seq<Subject>)
    ensures forall e :: e in RankRows(students, gen, active) ==> e.row in Filter(RowHasMean, Map(RowFor(gen, active), students))
  {
    var rows := Filter(RowHasMean, Map(RowFor(gen, active), students));
    var sorted := SortBy(rows, RowOrder());
    var r := RankRows(students, gen, active);
    SameMembers(rows, sorted);
    forall e | e in r
      ensures e.row in rows
    {
      var i :| 0 <= i < |r| && r[i] == e;
      assert e.row == sorted[i];
    }
  }

  /** Every row kept has mean points and belongs to a class of one of the students. */
  lemma RowsFromStudents(students: seq<Student>, gen: Student -> Option<Report>, active: seq<Subject>, classId: string)
    requires forall s :: s in students ==> s.classId == classId
    ensures forall x :: x in Filter(RowHasMean, Map(RowFor(gen, active), students)) ==>
              x.meanTermPoints.Some? && x.classId == classId
  {
    var all := Map(RowFor(gen, active), students);
    forall x | x in Filter(RowHasMean, all)
      ensures x.meanTermPoints.Some? && x.classId == classId
    {
      var k :| 0 <= k < |all| && all[k] == x;
      assert students[k] in students;
    }
  }

  lemma {:induction false} RowsCount(students: seq<Student>, gen: Student -> Option<Report>, active: seq<Subject>)
    ensures |Filter(RowHasMean, Map(RowFor(gen, active), students))| == Count(HasMeanBy(gen), students)
  {
    if |students| > 0 {
      RowsCount(students[1..], gen, active);
      assert Map(RowFor(gen, active), students)[1..] == Map(RowFor(gen, active), students[1..]);
    }
  }

  /** The row a ranked report yields. */
  function ToBroadsheet(active: seq<Subject>): MeritEntry -> BroadsheetEntry {
    (e: MeritEntry) => BroadsheetEntry(RowOf(e.report.student, Some(e.report), active), e.rank)
  }

  function RowOfReport(active: seq<Subject>): Report -> Row {
    (rep: Report) => RowOf(rep.student, Some(rep), active)
  }

  lemma {:induction false} RowsOfReports(students: seq<Student>, gen: Student -> Option<Report>, active: seq<Subject>)
    requires KeepsStudent(gen)
    ensures Filter(RowHasMean, Map(RowFor(gen, active), students)) == Map(RowOfReport(active), AssessedReports(students, gen))
  {
    if |students| > 0 {
      RowsOfReports(students[1..], gen, active);
      var rows := Map(RowFor(gen, active), students);
      assert rows[1..] == Map(RowFor(gen, active), students[1..]);
      var rep := gen(students[0]);
      if HasMean(rep) {
        assert RowFor(gen, active)(students[0]) == RowOfReport(active)(rep.value);
        var tail := AssessedReports(students[1..], gen);
        var m := Map(RowOfReport(active), [rep.value] + tail);
        assert m[0] == RowOfReport(active)(rep.value) && m[1..] == Map(RowOfReport(active), tail);
      }
    }
  }

  /** Sorting rows gives the rows of the sorted reports. */
  lemma SortedRows(students: seq<Student>, gen: Student -> Option<Report>, active: seq<Subject>)
    requires KeepsStudent(gen)
    ensures SortBy(Filter(RowHasMean, Map(RowFor(gen, active), students)), RowOrder())
            == Map(RowOfReport(active), SortBy(AssessedReports(students, gen), MeritOrder()))
  {
    var reports := AssessedReports(students, gen);
    var f := RowOfReport(active);
    RowsOfReports(students, gen, active);
    assert forall a, b :: RowOrder()(f(a), f(b)) == MeritOrder()(a, b);
    SortByMap(f, reports, MeritOrder(), RowOrder());
  }

  lemma RowStandings(sorted: seq<Report>, active: seq<Subject>)
    ensures Map(RowStanding, Map(RowOfReport(active), sorted)) == Map(ReportStanding, sorted)
  {
  }

  lemma RankRowsIsRank(students: seq<Student>, gen: Student -> Option<Report>, active: seq<Subject>)
    requires KeepsStudent(gen)
    ensures RankRows(students, gen, active) == Map(ToBroadsheet(active), Rank(AssessedReports(students, gen)))
  {
    var reports := AssessedReports(students, gen);
    var sorted := SortBy(reports, MeritOrder());
    var rowsSorted := Map(RowOfReport(active), sorted);
    SortedRows(students, gen, active);
    RowStandings(sorted, active);
    var left := RankRows(students, gen, active);
    var right := Map(ToBroadsheet(active), Rank(reports));
    forall i | 0 <= i < |left|
      ensures left[i] == right[i]
    {
      assert left[i].row == rowsSorted[i];
    }
  }

  /** The broadsheet of a class is the merit list filtered to that class, row for row: same
      students, same order, same ranks. */
  lemma BroadsheetIsMeritList(classId: string, term: Term, db: Records)
    requires classId != ""
    ensures Broadsheet(classId, term, db) == Map(ToBroadsheet(db.activeSubjects), MeritList(term, db, Some(classId)))
  {
    var inClass := Filter(InClass(classId), db.students);
    var gen := ReportsIn(term, db);
    ReportsInKeepStudent(term, db);
    if |inClass| > 0 {
      RankRowsIsRank(inClass, gen, db.activeSubjects);
    } else {
      assert AssessedReports(inClass, gen) == [];
    }
  }

  // ---------------------------------------------------------------------------
  // performance changes

  datatype Change = Change(student: Student, current: Report, previous: Report, meanPointsChange: real)

  function BothAssessed(current: Student -> Option<Report>, previous: Student -> Option<Report>): Student -> bool {
    (s: Student) => HasMean(current(s)) && HasMean(previous(s))
  }

  function ChangesOf(students: seq<Student>, current: Student -> Option<Report>, previous: Student -> Option<Report>): (r: seq<Change>)
    ensures |r| == Count(BothAssessed(current, previous), students)
    ensures forall c :: c in r ==>
              && c.student in students
              && current(c.student) == Some(c.current) && previous(c.student) == Some(c.previous)
              && c.current.totals.meanTermPoints.Some? && c.previous.totals.meanTermPoints.Some?
              && c.meanPointsChange == c.current.totals.meanTermPoints.value - c.previous.totals.meanTermPoints.value
  {
    if |students| == 0 then []
    else
      var s := students[0];
      var cur := current(s);
      var prev := previous(s);
      var rest := ChangesOf(students[1..], current, previous);
      assert forall x :: x in students[1..] ==> x in students;
      if HasMean(cur) && HasMean(prev) then
        [Change(s, cur.value, prev.value, cur.value.totals.meanTermPoints.value - prev.value.totals.meanTermPoints.value)] + rest
      else rest
  }

  /** The change in mean points of every processed student assessed in both terms. */
  function PerformanceChanges(current: Term, comparison: Term, db: Records, classFilter: Option<string>): (r: seq<Change>)
    ensures |r| == Count(BothAssessed(ReportsIn(current, db), ReportsIn(comparison, db)), Processed(db.students, classFilter))
    ensures forall c :: c in r ==>
              && c.student in Processed(db.students, classFilter)
              && ReportsIn(current, db)(c.student) == Some(c.current)
              && ReportsIn(comparison, db)(c.student) == Some(c.previous)
              && c.current.totals.meanTermPoints.Some? && c.previous.totals.meanTermPoints.Some?
              && c.meanPointsChange == c.current.totals.meanTermPoints.value - c.previous.totals.meanTermPoints.value
  {
    ChangesOf(Processed(db.students, classFilter), ReportsIn(current, db), ReportsIn(comparison, db))
  }

  // ---------------------------------------------------------------------------
  // performance history

  datatype HistoryPoint = HistoryPoint(
    termId: string,
    termName: string,
    year: int,
    meanWeightedScore: Option<real>,
    meanTermPoints: real,
    overallTermGrade: string)

  /** The number in a term name such as "Term 2": `parseInt` of the text after the first space;
      `None` when there is no such text or it is not a number. */
  function TermNumber(name: string): Option<int> {
    match SecondPiece(name, ' ')
    case None => None
    case Some(piece) => ParseInt(piece)
  }

  /** The history's order: earlier year first, then smaller term number; points whose term
      numbers cannot be read tie with every point of the same year. */
  predicate HistoryBefore(a: HistoryPoint, b: HistoryPoint) {
    a.year < b.year
    || (a.year == b.year && TermNumber(a.termName).Some? && TermNumber(b.termName).Some?
        && TermNumber(a.termName).value < TermNumber(b.termName).value)
  }

  function HistoryOrder(): (HistoryPoint, HistoryPoint) -> bool {
    (a: HistoryPoint, b: HistoryPoint) => HistoryBefore(a, b)
  }

  /** One history point per term whose report has mean points, in term order. */
  function Points(terms: seq<Term>, gen: Term -> Option<Report>): (r: seq<HistoryPoint>)
    ensures |r| == Count(HasMeanBy(gen), terms)
    ensures forall p :: p in r ==> exists t :: t in terms && p.termId == t.id && p.termName == t.name && HasMean(gen(t))
  {
    if |terms| == 0 then []
    else
      var t := terms[0];
      var rep := gen(t);
      var rest := Points(terms[1..], gen);
      assert forall x :: x in terms[1..] ==> x in terms;
      if HasMean(rep) then
        [HistoryPoint(t.id, t.name, rep.value.term.year, rep.value.totals.meanWeightedScore,
                      rep.value.totals.meanTermPoints.value, rep.value.totals.overallTermGrade)] + rest
      else rest
  }

  function HasId(id: string): Student -> bool {
    (s: Student) => s.id == id
  }

  /** A student's mean points in every term with an assessed report, ordered by year and term
      number; empty for an unknown student. */
  function PerformanceHistory(studentId: string, terms: seq<Term>, db: Records): (r: seq<HistoryPoint>)
    ensures (forall s :: s in db.students ==> s.id != studentId) ==> r == []
    ensures SortedBy(r, HistoryOrder())
    ensures forall i, j :: 0 <= i < j < |r| ==> r[i].year <= r[j].year
    ensures forall i ::
              (0 <= i < |db.students| && db.students[i].id == studentId
               && forall j :: 0 <= j < i ==> db.students[j].id != studentId)
              ==> multiset(r) == multiset(Points(terms, ReportsOf(db.students[i], db)))
  {
    match Find(HasId(studentId), db.students)
    case None => []
    case Some(student) =>
      var points := Points(terms, ReportsOf(student, db));
      SortBySorted(points, HistoryOrder());
      SortBy(points, HistoryOrder())
  }
}

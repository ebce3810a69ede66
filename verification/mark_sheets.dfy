/** The printable mark sheet: for one class (optionally one stream) and one subject, a row per
    student with the stored score of every exam session of the term and the combined term score.
    The page computes that combined score with its own copy of the subject-score rule; it is
    proved equal to the reference `SubjectScore.Combine`, and every cell is shown the way the
    marks entry form shows a score. */
module MarkSheets {
  import opened Wrappers
  import opened Collections
  import opened Sorting
  import opened Text
  import opened Types
  import opened SubjectScore
  import MarksEntry

  // ---------------------------------------------------------------------------
  // cells

  /** The text of a cell: blank without a score, "X" and "Y" for the sentinels, otherwise the
      score rounded half up. */
  function ScoreDisplay(score: Option<real>): (r: string)
    ensures score.None? <==> r == ""
    ensures score == Some(Absent as real) <==> r == "X"
    ensures score == Some(Malpractice as real) <==> r == "Y"
    ensures score.Some? && score.value != Absent as real && score.value != Malpractice as real ==>
              ParseInt(r) == Some(Round(score.value))
  {
    match score
    case None => ""
    case Some(x) =>
      if x == Absent as real then "X"
      else if x == Malpractice as real then "Y"
      else
        var t := IntToString(Round(x));
        MarksEntry.ShownNumber(Round(x));
        ParseIntOfIntToString(Round(x));
        assert t != "X" && t != "Y" by {
          assert t[0] != 'X' && t[0] != 'Y';
        }
        t
  }

  function AsReal(score: Option<int>): Option<real> {
    match score
    case None => None
    case Some(v) => Some(v as real)
  }

  lemma RoundWhole(v: int)
    ensures Round(v as real) == v
  {
    RoundNearest(v as real);
  }

  /** A stored score is shown on the sheet exactly as the marks entry form shows it. */
  lemma CellMatchesEntryForm(score: Option<int>)
    ensures ScoreDisplay(AsReal(score)) == MarksEntry.DisplayValue(score)
  {
    if score.Some? {
      RoundWhole(score.value);
    }
  }

  /** Hence a printed cell, typed back into the form, gives the stored score again. */
  lemma CellReadsBack(score: Option<int>)
    requires score.Some? ==> ValidScore(score.value)
    ensures MarksEntry.ParseEntry(ScoreDisplay(AsReal(score))) == Some(score)
  {
    CellMatchesEntryForm(score);
    MarksEntry.DisplayRoundTrip(score);
  }

  // ---------------------------------------------------------------------------
  // the page's copy of the subject score

  /** A component's score, 0 when there is none (only read for counting components). */
  function ScoreValue(c: Component): int {
    if c.score.Some? then c.score.value else 0
  }

  function WeightedValue(c: Component): int {
    ScoreValue(c) * c.weight
  }

  function WeightValue(c: Component): int {
    c.weight
  }

  /** The sheet's total: nothing when no session has an entry; a sentinel (Malpractice if any,
      else Absent) when no entry is a real score; otherwise the plain mean, or the
      weight-weighted mean when the total weight is positive, of the real scores. */
  function SheetTotal(mode: CalcMode, cs: seq<Component>): (r: Option<real>)
    ensures r == Combine(mode, cs)
  {
    var entered := Present(Scores(cs));
    EnteredFacts(cs);
    FilteredSums(cs);
    if |entered| == 0 then None
    else if !(exists v :: v in entered && v >= 0) then
      Some(if Malpractice in entered then Malpractice as real else Absent as real)
    else
      var valid := Filter(Counts, cs);
      if mode == SimpleAverage then Some(Sum(Map(ScoreValue, valid)) as real / |valid| as real)
      else
        var weightedSum := Sum(Map(WeightedValue, valid));
        var totalWeight := Sum(Map(WeightValue, valid));
        if totalWeight > 0 then Some(weightedSum as real / totalWeight as real) else None
  }

  /** Summing over the counting components gives the reference sums. */
  lemma {:induction false} FilteredSums(cs: seq<Component>)
    ensures |Filter(Counts, cs)| == ValidCount(cs)
    ensures Sum(Map(ScoreValue, Filter(Counts, cs))) == ValidSum(cs)
    ensures Sum(Map(WeightedValue, Filter(Counts, cs))) == WeightedSum(cs)
    ensures Sum(Map(WeightValue, Filter(Counts, cs))) == WeightSum(cs)
  {
    if |cs| > 0 {
      FilteredSums(cs[1..]);
      var rest := Filter(Counts, cs[1..]);
      if Counts(cs[0]) {
        var f := [cs[0]] + rest;
        assert Filter(Counts, cs) == f;
        assert f[0] == cs[0] && f[1..] == rest;
        assert Map(ScoreValue, f)[1..] == Map(ScoreValue, rest);
        assert Map(WeightedValue, f)[1..] == Map(WeightedValue, rest);
        assert Map(WeightValue, f)[1..] == Map(WeightValue, rest);
      } else {
        assert Filter(Counts, cs) == rest;
      }
    }
  }

  /** The total cell shows the subject's reported term score, as every report shows it. */
  lemma TotalMatchesReports(mode: CalcMode, cs: seq<Component>)
    ensures ScoreDisplay(SheetTotal(mode, cs)) == MarksEntry.DisplayValue(TermScore(mode, cs))
  {
    var u := Combine(mode, cs);
    assert u.None? || u.value >= 0.0 || u.value == Absent as real || u.value == Malpractice as real;
    FinalDisplay(u);
  }

  /** Rounding a mean or passing a sentinel through, then showing it, is showing it directly. */
  lemma FinalDisplay(u: Option<real>)
    requires u.None? || u.value >= 0.0 || u.value == Absent as real || u.value == Malpractice as real
    ensures ScoreDisplay(u) == MarksEntry.DisplayValue(FinalScore(u))
  {
    if u.Some? {
      var x := u.value;
      if x >= 0.0 {
        RoundNearest(x);
        var n := Round(x);
        assert n >= 0;
        assert FinalScore(u) == Some(n);
        assert ScoreDisplay(u) == IntToString(n);
      } else if x == Absent as real {
        assert FinalScore(u) == Some(Absent);
      } else {
        assert FinalScore(u) == Some(Malpractice);
      }
    }
  }

  // ---------------------------------------------------------------------------
  // the sheet

  /** The student appears on the sheet for `classId` and `stream` ("all" for every stream). */
  function OnSheet(classId: string, stream: string): Student -> bool {
    (s: Student) => s.classId == classId && (stream == "all" || s.stream == stream)
  }

  /** Admission numbers compared as numbers where they are numbers. */
  predicate ByAdmission(a: Student, b: Student) {
    NumericLess(a.admissionNumber, b.admissionNumber)
  }

  lemma ByAdmissionOrder()
    ensures StrictOrder(ByAdmission)
  {
    forall a: Student
      ensures !ByAdmission(a, a)
    {
      NumericLessIrreflexive(a.admissionNumber);
    }
    forall a: Student, b: Student, c: Student | ByAdmission(a, b) && ByAdmission(b, c)
      ensures ByAdmission(a, c)
    {
      NumericLessTransitive(a.admissionNumber, b.admissionNumber, c.admissionNumber);
    }
  }

  /** The students listed: exactly those of the class in the chosen stream, each once per
      record, in admission-number order. */
  function SheetStudents(students: seq<Student>, classId: string, stream: string): (r: seq<Student>)
    ensures multiset(r) == multiset(Filter(OnSheet(classId, stream), students))
    ensures forall s :: s in r <==> s in students && s.classId == classId && (stream == "all" || s.stream == stream)
    ensures SortedBy(r, ByAdmission)
  {
    var chosen := Filter(OnSheet(classId, stream), students);
    var r := SortBy(chosen, ByAdmission);
    ByAdmissionOrder();
    SortBySorted(chosen, ByAdmission);
    assert forall s :: s in r <==> s in multiset(chosen);
    r
  }

  /** `x` is the non-empty stream of some student of the class. */
  predicate StreamOfClass(students: seq<Student>, classId: string, x: string) {
    x != "" && exists s :: s in students && s.classId == classId && s.stream == x
  }

  function StreamOf(s: Student): string {
    s.stream
  }

  function NonEmpty(x: string): bool {
    x != ""
  }

  function InClassId(classId: string): Student -> bool {
    (s: Student) => s.classId == classId
  }

  /** The non-empty streams of the class's students, in record order, repeats kept. */
  function StreamsIn(students: seq<Student>, classId: string): seq<string> {
    Filter(NonEmpty, Map(StreamOf, Filter(InClassId(classId), students)))
  }

  lemma StreamsInMembers(students: seq<Student>, classId: string)
    ensures forall x :: x in StreamsIn(students, classId) <==> StreamOfClass(students, classId, x)
  {
    StreamsInComplete(students, classId);
    StreamsInSound(students, classId);
  }

  lemma StreamsInComplete(students: seq<Student>, classId: string)
    ensures forall x :: StreamOfClass(students, classId, x) ==> x in StreamsIn(students, classId)
  {
    var inClass := Filter(InClassId(classId), students);
    var m := Map(StreamOf, inClass);
    forall x | StreamOfClass(students, classId, x)
      ensures x in StreamsIn(students, classId)
    {
      var s :| s in students && s.classId == classId && s.stream == x;
      var k :| 0 <= k < |inClass| && inClass[k] == s;
      assert m[k] == x;
    }
  }

  lemma StreamsInSound(students: seq<Student>, classId: string)
    ensures forall x :: x in StreamsIn(students, classId) ==> StreamOfClass(students, classId, x)
  {
    var inClass := Filter(InClassId(classId), students);
    var m := Map(StreamOf, inClass);
    forall x | x in StreamsIn(students, classId)
      ensures StreamOfClass(students, classId, x)
    {
      var k :| 0 <= k < |m| && m[k] == x;
      assert inClass[k] in students;
    }
  }

  /** The streams offered: "all", then every non-empty stream of the class once, or only "all"
      when no class is chosen. */
  function ClassStreams(students: seq<Student>, classId: string): (r: seq<string>)
    ensures |r| > 0 && r[0] == "all"
    ensures classId == "" ==> r == ["all"]
    ensures classId != "" ==> forall x :: x in r[1..] <==> StreamOfClass(students, classId, x)
    ensures forall i, j :: 1 <= i < j < |r| ==> r[i] != r[j]
  {
    if classId == "" then ["all"]
    else
      var d := Distinct(StreamsIn(students, classId));
      StreamsInMembers(students, classId);
      assert (["all"] + d)[1..] == d;
      ["all"] + d
  }

  /** One printed row: the student, a cell per session of the term and the total cell. */
  datatype SheetRow = SheetRow(student: Student, cells: seq<string>, total: string)

  function RowOf(student: Student, subjectId: string, mode: CalcMode, sessions: seq<ExamSession>, marks: seq<Mark>): (r: SheetRow)
    ensures r.student == student
    ensures |r.cells| == |sessions|
    ensures forall i :: 0 <= i < |sessions| ==>
              r.cells[i] == MarksEntry.DisplayValue(ScoreOf(marks, student.id, subjectId, sessions[i].id))
    ensures r.total == MarksEntry.DisplayValue(TermScore(mode, Components(sessions, marks, student.id, subjectId)))
  {
    var cs := Components(sessions, marks, student.id, subjectId);
    CellsMatchEntryForm(cs);
    TotalMatchesReports(mode, cs);
    SheetRow(student, Map(CellOf, cs), ScoreDisplay(SheetTotal(mode, cs)))
  }

  function CellOf(c: Component): string {
    ScoreDisplay(AsReal(c.score))
  }

  lemma CellsMatchEntryForm(cs: seq<Component>)
    ensures forall i :: 0 <= i < |cs| ==> Map(CellOf, cs)[i] == MarksEntry.DisplayValue(cs[i].score)
  {
    forall i | 0 <= i < |cs|
      ensures Map(CellOf, cs)[i] == MarksEntry.DisplayValue(cs[i].score)
    {
      CellMatchesEntryForm(cs[i].score);
    }
  }

  /** The sessions of the selected term, none without a term. */
  function SheetSessions(term: Option<Term>, sessions: seq<ExamSession>): (r: seq<ExamSession>)
    ensures term.None? ==> r == []
    ensures term.Some? ==> forall e :: e in r <==> e in sessions && e.termId == term.value.id
  {
    match term
    case None => []
    case Some(t) => TermSessions(sessions, t.id)
  }

  /** The printable sheet, or `None` while it is not ready: it needs at least one listed
      student, a chosen subject and at least one session in the selected term. */
  function MarkSheet(classId: string, stream: string, subjectId: string, term: Option<Term>, db: Records): (r: Option<seq<SheetRow>>)
    ensures var listed := SheetStudents(db.students, classId, stream);
            var sessions := SheetSessions(term, db.sessions);
            && (r.Some? <==> |listed| > 0 && subjectId != "" && |sessions| > 0)
            && (r.Some? ==>
                  && term.Some?
                  && |r.value| == |listed|
                  && forall i :: 0 <= i < |listed| ==> r.value[i] == RowOf(listed[i], subjectId, term.value.mode, sessions, db.marks))
  {
    var listed := SheetStudents(db.students, classId, stream);
    var sessions := SheetSessions(term, db.sessions);
    if |listed| > 0 && subjectId != "" && |sessions| > 0 then
      var mode := term.value.mode;
      Some(Map((s: Student) => RowOf(s, subjectId, mode, sessions, db.marks), listed))
    else None
  }

  /** Every cell of a ready sheet reads back, through the marks entry form, as the score that
      is stored for it. */
  lemma SheetShowsStoredScores(classId: string, stream: string, subjectId: string, term: Option<Term>, db: Records,
                               rows: seq<SheetRow>, sessions: seq<ExamSession>, i: nat, j: nat)
    requires ValidMarks(db.marks)
    requires MarkSheet(classId, stream, subjectId, term, db) == Some(rows)
    requires sessions == SheetSessions(term, db.sessions)
    requires i < |rows| && j < |sessions|
    ensures j < |rows[i].cells|
            && MarksEntry.ParseEntry(rows[i].cells[j]) == Some(ScoreOf(db.marks, rows[i].student.id, subjectId, sessions[j].id))
  {
    var listed := SheetStudents(db.students, classId, stream);
    assert rows[i] == RowOf(listed[i], subjectId, term.value.mode, sessions, db.marks);
    RowShowsStoredScore(listed[i], subjectId, term.value.mode, sessions, db.marks, j);
  }

  lemma RowShowsStoredScore(student: Student, subjectId: string, mode: CalcMode, sessions: seq<ExamSession>, marks: seq<Mark>, j: nat)
    requires ValidMarks(marks) && j < |sessions|
    ensures MarksEntry.ParseEntry(RowOf(student, subjectId, mode, sessions, marks).cells[j])
            == Some(ScoreOf(marks, student.id, subjectId, sessions[j].id))
  {
    var score := ScoreOf(marks, student.id, subjectId, sessions[j].id);
    ScoreOfValid(marks, student.id, subjectId, sessions[j].id);
    MarksEntry.DisplayRoundTrip(score);
  }
}

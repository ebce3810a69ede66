/** The records the school keeps: users, students, classes, subjects, terms, exam sessions
    and marks. Optional fields of the source become `Option`; image URLs, passwords and
    dates are not part of the model. */
module Types {
  import opened Wrappers
  import opened Collections

  datatype Role = Admin | Teacher | Parent

  /** One class a teacher teaches, with the subjects taught there. */
  datatype Assignment = Assignment(classId: string, subjectIds: seq<string>)

  datatype User = User(
    id: string,
    username: string,
    role: Role,
    name: string,
    phoneNumber: Option<string>,
    assignments: seq<Assignment>)

  datatype Gender = Male | Female

  /** A pupil. An empty `subjects` list means "takes every active subject", exactly as an
      absent list does in the source. Fee amounts are money values, kept as rationals. */
  datatype Student = Student(
    id: string,
    admissionNumber: string,
    name: string,
    classId: string,
    stream: string,
    parentUsername: string,
    gender: Gender,
    currentFeesBalance: real,
    nextTermFees: real,
    subjects: seq<string>)

  datatype SchoolClass = SchoolClass(id: string, name: string)

  datatype Subject = Subject(id: string, name: string)

  datatype CalcMode = WeightedAverage | SimpleAverage

  datatype Term = Term(id: string, name: string, year: int, mode: CalcMode)

  /** An exam sitting within a term; `weight` is a percentage, the editor keeps it in 0..100. */
  datatype ExamSession = ExamSession(id: string, termId: string, name: string, weight: nat)

  /** A recorded score: `None` is "not entered", -1 is Absent, -2 is Malpractice. */
  datatype Mark = Mark(studentId: string, subjectId: string, examSessionId: string, score: Option<int>)

  const Absent: int := -1
  const Malpractice: int := -2

  /** A score that the marks form can store: a sentinel or a whole number in 0..100. */
  predicate ValidScore(s: int) {
    s == Absent || s == Malpractice || 0 <= s <= 100
  }

  /** Every entered score in `marks` is one the marks form can store. */
  predicate ValidMarks(marks: seq<Mark>) {
    forall i :: 0 <= i < |marks| ==> marks[i].score.Some? ==> ValidScore(marks[i].score.value)
  }

  /** Everything the scoring engine reads, as the application state holds it. */
  datatype Records = Records(
    students: seq<Student>,
    classes: seq<SchoolClass>,
    activeSubjects: seq<Subject>,
    marks: seq<Mark>,
    sessions: seq<ExamSession>,
    users: seq<User>,
    subjects: seq<Subject>)

  predicate MarkFor(m: Mark, studentId: string, subjectId: string, sessionId: string) {
    m.studentId == studentId && m.subjectId == subjectId && m.examSessionId == sessionId
  }

  /** The first mark for the student, subject and session (the source's `marks.find`). */
  function FindMark(marks: seq<Mark>, studentId: string, subjectId: string, sessionId: string): (r: Option<Mark>)
    ensures r.Some? ==> r.value in marks && MarkFor(r.value, studentId, subjectId, sessionId)
    ensures r.None? <==> forall i :: 0 <= i < |marks| ==> !MarkFor(marks[i], studentId, subjectId, sessionId)
    ensures forall i ::
              (0 <= i < |marks| && MarkFor(marks[i], studentId, subjectId, sessionId)
               && forall j :: 0 <= j < i ==> !MarkFor(marks[j], studentId, subjectId, sessionId))
              ==> r == Some(marks[i])
  {
    match FindIndex((m: Mark) => MarkFor(m, studentId, subjectId, sessionId), marks)
    case None => None
    case Some(k) => Some(marks[k])
  }

  /** The score of that first mark, `None` when there is no mark or it holds no score. */
  function ScoreOf(marks: seq<Mark>, studentId: string, subjectId: string, sessionId: string): (r: Option<int>)
    ensures r.Some? ==> exists i :: 0 <= i < |marks| && MarkFor(marks[i], studentId, subjectId, sessionId) && marks[i].score == r
    ensures (forall i :: 0 <= i < |marks| ==> !MarkFor(marks[i], studentId, subjectId, sessionId)) ==> r.None?
    ensures forall i ::
              (0 <= i < |marks| && MarkFor(marks[i], studentId, subjectId, sessionId)
               && forall j :: 0 <= j < i ==> !MarkFor(marks[j], studentId, subjectId, sessionId))
              ==> r == marks[i].score
  {
    match FindMark(marks, studentId, subjectId, sessionId)
    case None => None
    case Some(m) => m.score
  }

  /** A stored score is valid whenever the marks are. */
  lemma ScoreOfValid(marks: seq<Mark>, studentId: string, subjectId: string, sessionId: string)
    requires ValidMarks(marks)
    ensures ScoreOf(marks, studentId, subjectId, sessionId).Some? ==> ValidScore(ScoreOf(marks, studentId, subjectId, sessionId).value)
  {
  }

  /** The sessions belonging to `term`, in their stored order. */
  function TermSessions(sessions: seq<ExamSession>, termId: string): (r: seq<ExamSession>)
    ensures forall i :: 0 <= i < |r| ==> r[i].termId == termId && r[i] in sessions
    ensures forall e :: e in sessions && e.termId == termId ==> e in r
  {
    Filter((e: ExamSession) => e.termId == termId, sessions)
  }

  /** No two different sessions share an id. */
  predicate DistinctSessionIds(sessions: seq<ExamSession>) {
    forall a, b :: a in sessions && b in sessions && a.id == b.id ==> a == b
  }
}

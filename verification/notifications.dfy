/** Submission reminders: for the selected term, which teachers still have marks to enter for
    the classes and subjects assigned to them, how many marks are missing for each, and the
    reminder text offered for sending. */
module Notifications {
  import opened Wrappers
  import opened Collections
  import opened Text
  import opened Types

  /** Some mark with a score exists for the student, subject and session (any such mark, not
      only the first). */
  predicate Entered(marks: seq<Mark>, studentId: string, subjectId: string, sessionId: string) {
    exists i :: 0 <= i < |marks| && MarkFor(marks[i], studentId, subjectId, sessionId) && marks[i].score.Some?
  }

  function NotEnteredFor(marks: seq<Mark>, studentId: string, subjectId: string): ExamSession -> bool {
    (e: ExamSession) => !Entered(marks, studentId, subjectId, e.id)
  }

  /** The number of (student, session) pairs without an entered mark for the subject. */
  function Missing(students: seq<Student>, sessions: seq<ExamSession>, marks: seq<Mark>, subjectId: string): (n: nat)
    ensures n <= |students| * |sessions|
    ensures n == 0 <==> forall i, j :: 0 <= i < |students| && 0 <= j < |sessions| ==>
                          Entered(marks, students[i].id, subjectId, sessions[j].id)
  {
    MissingBound(students, sessions, marks, subjectId);
    MissingNone(students, sessions, marks, subjectId);
    MissingPairs(students, sessions, marks, subjectId)
  }

  /** The count itself: the sessions missing a mark, summed over the students. */
  function MissingPairs(students: seq<Student>, sessions: seq<ExamSession>, marks: seq<Mark>, subjectId: string): nat {
    if |students| == 0 then 0
    else Count(NotEnteredFor(marks, students[0].id, subjectId), sessions) + MissingPairs(students[1..], sessions, marks, subjectId)
  }

  lemma {:induction false} MissingBound(students: seq<Student>, sessions: seq<ExamSession>, marks: seq<Mark>, subjectId: string)
    ensures MissingPairs(students, sessions, marks, subjectId) <= |students| * |sessions|
  {
    if |students| > 0 {
      MissingBound(students[1..], sessions, marks, subjectId);
      assert |students| * |sessions| == |sessions| + |students[1..]| * |sessions|;
    }
  }

  lemma {:induction false} MissingNone(students: seq<Student>, sessions: seq<ExamSession>, marks: seq<Mark>, subjectId: string)
    ensures MissingPairs(students, sessions, marks, subjectId) == 0 <==>
              forall i, j :: 0 <= i < |students| && 0 <= j < |sessions| ==> Entered(marks, students[i].id, subjectId, sessions[j].id)
  {
    if |students| > 0 {
      MissingNone(students[1..], sessions, marks, subjectId);
      NoneMissing(NotEnteredFor(marks, students[0].id, subjectId), sessions);
      assert forall i :: 1 <= i < |students| ==> students[i] == students[1..][i - 1];
    }
  }

  /** A count is zero exactly when no element passes the test. */
  lemma {:induction false} NoneMissing<T>(p: T -> bool, s: seq<T>)
    ensures Count(p, s) == 0 <==> forall j :: 0 <= j < |s| ==> !p(s[j])
  {
    if |s| > 0 {
      NoneMissing(p, s[1..]);
      assert forall j :: 1 <= j < |s| ==> s[j] == s[1..][j - 1];
    }
  }

  /** One line of a teacher's reminder. */
  datatype Detail = Detail(className: string, subjectName: string, missingCount: nat)

  /** A teacher with at least one subject still missing marks. */
  datatype Reminder = Reminder(teacher: User, details: seq<Detail>)

  /** The name a reminder line shows for a class: the recorded name, or "Unknown Class" when
      the class is not on record or its name is empty (`?.name || ...`), so never empty. */
  function ClassName(classes: seq<SchoolClass>, classId: string): (r: string)
    ensures r != ""
    ensures r != "Unknown Class" ==> exists c :: c in classes && c.id == classId && c.name == r
  {
    match Find((c: SchoolClass) => c.id == classId, classes)
    case Some(c) => if c.name != "" then c.name else "Unknown Class"
    case None => "Unknown Class"
  }

  /** The name a reminder line shows for a subject, with the same fallback. */
  function SubjectName(subjects: seq<Subject>, subjectId: string): (r: string)
    ensures r != ""
    ensures r != "Unknown Subject" ==> exists s :: s in subjects && s.id == subjectId && s.name == r
  {
    match Find((s: Subject) => s.id == subjectId, subjects)
    case Some(s) => if s.name != "" then s.name else "Unknown Subject"
    case None => "Unknown Subject"
  }

  /** The line for one assigned class and subject, whether or not anything is missing. */
  function DetailOf(classId: string, subjectId: string, sessions: seq<ExamSession>, db: Records): Detail {
    var classStudents := Filter((s: Student) => s.classId == classId, db.students);
    Detail(ClassName(db.classes, classId), SubjectName(db.activeSubjects, subjectId),
           Missing(classStudents, sessions, db.marks, subjectId))
  }

  /** The lines with missing marks for one assignment, in the order of its subjects. */
  function SubjectDetails(classId: string, subjectIds: seq<string>, sessions: seq<ExamSession>, db: Records): (r: seq<Detail>)
    ensures forall d :: d in r <==> exists sid :: sid in subjectIds && d == DetailOf(classId, sid, sessions, db) && d.missingCount > 0
  {
    if |subjectIds| == 0 then []
    else
      var d := DetailOf(classId, subjectIds[0], sessions, db);
      var rest := SubjectDetails(classId, subjectIds[1..], sessions, db);
      assert forall sid :: sid in subjectIds <==> sid == subjectIds[0] || sid in subjectIds[1..];
      (if d.missingCount > 0 then [d] else []) + rest
  }

  /** The lines with missing marks over all of a teacher's assignments, in order. */
  function TeacherDetails(assignments: seq<Assignment>, sessions: seq<ExamSession>, db: Records): (r: seq<Detail>)
    ensures forall d :: d in r <==>
              exists a, sid :: a in assignments && sid in a.subjectIds && d == DetailOf(a.classId, sid, sessions, db) && d.missingCount > 0
  {
    if |assignments| == 0 then []
    else
      var a := assignments[0];
      assert forall b :: b in assignments <==> b == a || b in assignments[1..];
      SubjectDetails(a.classId, a.subjectIds, sessions, db) + TeacherDetails(assignments[1..], sessions, db)
  }

  function RemindersFor(teachers: seq<User>, sessions: seq<ExamSession>, db: Records): (r: seq<Reminder>)
    ensures forall x :: x in r <==> x.teacher in teachers && x.details == TeacherDetails(x.teacher.assignments, sessions, db) && |x.details| > 0
  {
    if |teachers| == 0 then []
    else
      var t := teachers[0];
      var details := TeacherDetails(t.assignments, sessions, db);
      assert forall u :: u in teachers <==> u == t || u in teachers[1..];
      (if |details| > 0 then [Reminder(t, details)] else []) + RemindersFor(teachers[1..], sessions, db)
  }

  function IsTeacher(u: User): bool {
    u.role == Teacher
  }

  /** The reminders for the selected term: none without a term or when the term has no exam
      sessions; otherwise one per teacher, in user order, that has an assigned class and subject
      with a missing mark, listing exactly those class-subject lines. */
  function IncompleteSubmissions(term: Option<Term>, db: Records): (r: seq<Reminder>)
    ensures term.None? || |TermSessions(db.sessions, term.value.id)| == 0 ==> r == []
    ensures forall x :: x in r ==> x.teacher in db.users && x.teacher.role == Teacher && |x.details| > 0
    ensures term.Some? ==>
              var sessions := TermSessions(db.sessions, term.value.id);
              forall x :: x in r ==>
                forall d :: d in x.details ==>
                  d.missingCount > 0
                  && exists a, sid :: a in x.teacher.assignments && sid in a.subjectIds && d == DetailOf(a.classId, sid, sessions, db)
  {
    match term
    case None => []
    case Some(t) =>
      var sessions := TermSessions(db.sessions, t.id);
      if |sessions| == 0 then []
      else RemindersFor(Filter(IsTeacher, db.users), sessions, db)
  }

  /** Some (student, session) pair of `classId` lacks an entered mark for `subjectId`. */
  predicate Outstanding(classId: string, subjectId: string, sessions: seq<ExamSession>, db: Records) {
    exists s, e :: s in db.students && s.classId == classId && e in sessions && !Entered(db.marks, s.id, subjectId, e.id)
  }

  /** A class-subject line counts a missing mark exactly when one is outstanding. */
  lemma DetailCountsOutstanding(classId: string, subjectId: string, sessions: seq<ExamSession>, db: Records)
    ensures DetailOf(classId, subjectId, sessions, db).missingCount > 0 <==> Outstanding(classId, subjectId, sessions, db)
  {
    var classStudents := Filter((s: Student) => s.classId == classId, db.students);
    if Outstanding(classId, subjectId, sessions, db) {
      var s, e :| s in db.students && s.classId == classId && e in sessions && !Entered(db.marks, s.id, subjectId, e.id);
      var i :| 0 <= i < |classStudents| && classStudents[i] == s;
      var j :| 0 <= j < |sessions| && sessions[j] == e;
    }
    if DetailOf(classId, subjectId, sessions, db).missingCount > 0 {
      var i, j :| 0 <= i < |classStudents| && 0 <= j < |sessions| && !Entered(db.marks, classStudents[i].id, subjectId, sessions[j].id);
      assert classStudents[i] in db.students && sessions[j] in sessions;
    }
  }

  /** Some assignment of the teacher has an outstanding mark. */
  predicate HasOutstanding(t: User, sessions: seq<ExamSession>, db: Records) {
    exists a, sid :: a in t.assignments && sid in a.subjectIds && Outstanding(a.classId, sid, sessions, db)
  }

  /** A teacher is reminded exactly when some assigned class and subject of theirs has a
      (student, session) pair of the term without an entered mark. */
  lemma RemindedIffMissing(term: Term, db: Records, t: User)
    requires t in db.users && t.role == Teacher
    requires |TermSessions(db.sessions, term.id)| > 0
    ensures (exists x :: x in IncompleteSubmissions(Some(term), db) && x.teacher == t)
            <==> HasOutstanding(t, TermSessions(db.sessions, term.id), db)
  {
    var sessions := TermSessions(db.sessions, term.id);
    if HasOutstanding(t, sessions, db) {
      RemindedIfOutstanding(term, db, t);
    }
    if exists x :: x in IncompleteSubmissions(Some(term), db) && x.teacher == t {
      var x :| x in IncompleteSubmissions(Some(term), db) && x.teacher == t;
      OutstandingIfReminded(term, db, x);
    }
  }

  lemma RemindedIfOutstanding(term: Term, db: Records, t: User)
    requires t in db.users && t.role == Teacher
    requires |TermSessions(db.sessions, term.id)| > 0
    requires HasOutstanding(t, TermSessions(db.sessions, term.id), db)
    ensures Reminder(t, TeacherDetails(t.assignments, TermSessions(db.sessions, term.id), db)) in IncompleteSubmissions(Some(term), db)
  {
    var sessions := TermSessions(db.sessions, term.id);
    var details := TeacherDetails(t.assignments, sessions, db);
    var a, sid :| a in t.assignments && sid in a.subjectIds && Outstanding(a.classId, sid, sessions, db);
    DetailsNonEmpty(t, sessions, db, a, sid);
    var teachers := Filter(IsTeacher, db.users);
    assert t in teachers;
    assert IncompleteSubmissions(Some(term), db) == RemindersFor(teachers, sessions, db);
    ReminderPresent(teachers, sessions, db, t);
  }

  lemma DetailsNonEmpty(t: User, sessions: seq<ExamSession>, db: Records, a: Assignment, sid: string)
    requires a in t.assignments && sid in a.subjectIds && Outstanding(a.classId, sid, sessions, db)
    ensures |TeacherDetails(t.assignments, sessions, db)| > 0
  {
    DetailCountsOutstanding(a.classId, sid, sessions, db);
    assert DetailOf(a.classId, sid, sessions, db) in TeacherDetails(t.assignments, sessions, db);
  }

  lemma ReminderPresent(teachers: seq<User>, sessions: seq<ExamSession>, db: Records, t: User)
    requires t in teachers && |TeacherDetails(t.assignments, sessions, db)| > 0
    ensures Reminder(t, TeacherDetails(t.assignments, sessions, db)) in RemindersFor(teachers, sessions, db)
  {
  }

  lemma OutstandingIfReminded(term: Term, db: Records, x: Reminder)
    requires |TermSessions(db.sessions, term.id)| > 0
    requires x in IncompleteSubmissions(Some(term), db)
    ensures HasOutstanding(x.teacher, TermSessions(db.sessions, term.id), db)
  {
    var sessions := TermSessions(db.sessions, term.id);
    assert x.details[0] in x.details;
    var a, sid :| a in x.teacher.assignments && sid in a.subjectIds && x.details[0] == DetailOf(a.classId, sid, sessions, db);
    DetailCountsOutstanding(a.classId, sid, sessions, db);
  }

  // ---------------------------------------------------------------------------
  // reminder text

  /** "Subject (Class)" for one line. */
  function DetailText(d: Detail): string {
    d.subjectName + " (" + d.className + ")"
  }

  /** The lines of a reminder, joined by ", ". */
  function SubjectList(details: seq<Detail>): string {
    Join(Map(DetailText, details), ", ")
  }

  /** The opening of a reminder addressed by first name. */
  function Greeting(teacher: User): string {
    "Dear " + BeforeFirst(teacher.name, ' ') + ", "
  }

  /** Everything before the list: greeting, school, and the term's name and year ("undefined"
      for each when no term is selected). */
  function SmsHead(teacher: User, schoolName: string, term: Option<Term>): (r: string)
    ensures StartsWith(r, Greeting(teacher))
  {
    var termName := if term.Some? then term.value.name else "undefined";
    var termYear := if term.Some? then IntToString(term.value.year) else "undefined";
    var rest := "this is a reminder from " + schoolName
                + ". Please submit the pending marks for the following subjects for "
                + termName + " " + termYear + ": ";
    StartsWithAppend(Greeting(teacher), rest);
    Greeting(teacher) + rest
  }

  const SmsTail: string := ". Thank you."

  /** The reminder text for a teacher, or `None` when the teacher has no phone number. */
  function PrepareSms(teacher: User, details: seq<Detail>, schoolName: string, term: Option<Term>): (r: Option<string>)
    ensures r.None? <==> teacher.phoneNumber.None? || teacher.phoneNumber.value == ""
    ensures r.Some? ==> StartsWith(r.value, Greeting(teacher))
    ensures r.Some? ==> r.value == SmsHead(teacher, schoolName, term) + SubjectList(details) + SmsTail
  {
    if teacher.phoneNumber.None? || teacher.phoneNumber.value == "" then None
    else
      var head := SmsHead(teacher, schoolName, term);
      var message := head + SubjectList(details) + SmsTail;
      StartsWithAppend(head, SubjectList(details));
      StartsWithAppend(head + SubjectList(details), SmsTail);
      Some(message)
  }

  /** Every line of the reminder appears, as "Subject (Class)", in the text sent. */
  lemma SmsListsEveryDetail(teacher: User, details: seq<Detail>, schoolName: string, term: Option<Term>, i: nat)
    requires PrepareSms(teacher, details, schoolName, term).Some?
    requires i < |details|
    ensures Occurs(DetailText(details[i]), PrepareSms(teacher, details, schoolName, term).value)
  {
    assert Map(DetailText, details)[i] == DetailText(details[i]);
    JoinContainsItems(Map(DetailText, details), ", ", i);
    OccursInside(DetailText(details[i]), SmsHead(teacher, schoolName, term), SubjectList(details), SmsTail);
  }

  lemma OccursInside(item: string, head: string, list: string, tail: string)
    requires Occurs(item, list)
    ensures Occurs(item, head + list + tail)
  {
    var k :| 0 <= k <= |list| - |item| && OccursAt(item, list, k);
    var whole := head + list + tail;
    assert whole[|head| + k..|head| + k + |item|] == list[k..k + |item|];
    assert OccursAt(item, whole, |head| + k);
  }
}

/** The marks entry form: the scores being edited for one class, subject and exam session,
    how typed text becomes a score, how a score is shown, and the marks submitted. */
module MarksEntry {
  import opened Wrappers
  import opened Collections
  import opened Text
  import opened Types

  /** The scores being edited, by student id; `None` is an empty cell. */
  type Entries = map<string, Option<int>>

  function InClass(classId: string): Student -> bool {
    (s: Student) => s.classId == classId
  }

  /** The form's starting scores: for every student of the chosen class the score of the
      first stored mark for the subject and session, empty without one; nothing until class,
      subject and session are all chosen. */
  function LoadEntries(students: seq<Student>, marks: seq<Mark>, classId: string, subjectId: string, sessionId: string): (r: Entries)
    ensures classId == "" || subjectId == "" || sessionId == "" ==> r == map[]
    ensures classId != "" && subjectId != "" && sessionId != "" ==>
              && (forall id :: id in r <==> exists s :: s in students && s.classId == classId && s.id == id)
              && (forall id :: id in r ==> r[id] == ScoreOf(marks, id, subjectId, sessionId))
  {
    if classId == "" || subjectId == "" || sessionId == "" then map[]
    else LoadAll(Filter(InClass(classId), students), marks, subjectId, sessionId)
  }

  function LoadAll(students: seq<Student>, marks: seq<Mark>, subjectId: string, sessionId: string): (r: Entries)
    ensures forall id :: id in r <==> exists s :: s in students && s.id == id
    ensures forall id :: id in r ==> r[id] == ScoreOf(marks, id, subjectId, sessionId)
  {
    if |students| == 0 then map[]
    else
      var n := |students| - 1;
      var prev := LoadAll(students[..n], marks, subjectId, sessionId);
      assert forall s :: s in students <==> s in students[..n] || s == students[n] by {
        assert students == students[..n] + [students[n]];
      }
      prev[students[n].id := ScoreOf(marks, students[n].id, subjectId, sessionId)]
  }

  /** What typed text does to a cell: "X" and "Y" (any case, surrounding white space ignored)
      record Absent and Malpractice, blank text clears the cell, and otherwise the text's
      leading integer is stored when it lies in 0..100; any other text leaves the cell alone. */
  function ParseEntry(text: string): (r: Option<Option<int>>)
    ensures ToUpper(Trim(text)) == "X" ==> r == Some(Some(Absent))
    ensures ToUpper(Trim(text)) == "Y" ==> r == Some(Some(Malpractice))
    ensures Trim(text) == "" ==> r == Some(None)
    ensures r.Some? && r.value.Some? ==> ValidScore(r.value.value)
    ensures r.Some? && r.value.Some? && r.value.value >= 0 ==> ParseInt(text) == r.value
    ensures Trim(text) != "" && ToUpper(Trim(text)) != "X" && ToUpper(Trim(text)) != "Y" ==>
              r == (if ParseInt(text).Some? && 0 <= ParseInt(text).value <= 100 then Some(ParseInt(text)) else None)
  {
    var upper := ToUpper(Trim(text));
    if upper == "X" then Some(Some(Absent))
    else if upper == "Y" then Some(Some(Malpractice))
    else if upper == "" then Some(None)
    else match ParseInt(text)
      case Some(v) => if 0 <= v <= 100 then Some(Some(v)) else None
      case None => None
  }

  /** Applies typed text to one student's cell; other cells are untouched. */
  function ChangeMark(entries: Entries, studentId: string, text: string): (r: Entries)
    ensures forall id :: id != studentId ==> (id in r <==> id in entries) && (id in r ==> r[id] == entries[id])
    ensures ParseEntry(text).Some? ==> studentId in r && r[studentId] == ParseEntry(text).value
    ensures ParseEntry(text).None? ==> r == entries
  {
    match ParseEntry(text)
    case Some(v) => entries[studentId := v]
    case None => entries
  }

  /** The text shown in a cell. */
  function DisplayValue(score: Option<int>): (r: string)
    ensures score.None? <==> r == ""
    ensures score == Some(Absent) <==> r == "X"
    ensures score == Some(Malpractice) <==> r == "Y"
  {
    match score
    case None => ""
    case Some(v) =>
      if v == Absent then "X"
      else if v == Malpractice then "Y"
      else
        var t := IntToString(v);
        assert t != "X" && t != "Y" by {
          ShownNumber(v);
        }
        t
  }

  /** The text of a number other than the sentinels is neither "X" nor "Y" and starts with a
      digit or a minus sign. */
  lemma ShownNumber(v: int)
    ensures |IntToString(v)| > 0 && (IsDigit(IntToString(v)[0]) || IntToString(v)[0] == '-')
    ensures forall i :: 0 <= i < |IntToString(v)| ==> IsDigit(IntToString(v)[i]) || IntToString(v)[i] == '-'
  {
  }

  /** Digits and minus signs are neither white space nor changed by upper-casing. */
  lemma NumberTextStable(t: string)
    requires |t| > 0
    requires forall i :: 0 <= i < |t| ==> IsDigit(t[i]) || t[i] == '-'
    ensures Trim(t) == t && ToUpper(t) == t
  {
    assert !IsSpace(t[0]) && !IsSpace(t[|t| - 1]);
    TrimOfUnspaced(t);
  }

  lemma TrimOfUnspaced(t: string)
    requires |t| > 0 && !IsSpace(t[0]) && !IsSpace(t[|t| - 1])
    ensures Trim(t) == t
  {
  }

  /** Every score the form can hold is shown as text that, typed back, gives the same score:
      showing and entering are inverse on valid scores and on the empty cell. */
  lemma DisplayRoundTrip(score: Option<int>)
    requires score.Some? ==> ValidScore(score.value)
    ensures ParseEntry(DisplayValue(score)) == Some(score)
  {
    match score
    case None =>
      TrimOfEmpty();
    case Some(v) =>
      if v == Absent {
        LetterStable('X');
      } else if v == Malpractice {
        LetterStable('Y');
      } else {
        NumberRoundTrip(v);
      }
  }

  lemma TrimOfEmpty()
    ensures Trim("") == ""
  {
  }

  /** A capital letter is unchanged by trimming and upper-casing. */
  lemma LetterStable(c: char)
    requires 'A' <= c <= 'Z'
    ensures ToUpper(Trim([c])) == [c]
  {
    TrimOfUnspaced([c]);
    assert ToUpper([c])[0] == UpperChar(c) == c;
  }

  lemma NumberRoundTrip(v: int)
    requires 0 <= v <= 100
    ensures ParseEntry(DisplayValue(Some(v))) == Some(Some(v))
  {
    var t := IntToString(v);
    assert DisplayValue(Some(v)) == t;
    ShownNumber(v);
    NumberTextStable(t);
    ParseIntOfIntToString(v);
    assert t[0] != 'X' && t[0] != 'Y';
    assert ToUpper(Trim(t)) == t;
  }

  /** The marks a submission sends, or `None` when the subject or session is not chosen. */
  function SubmitMarks(students: seq<Student>, entries: Entries, classId: string, subjectId: string, sessionId: string): (r: Option<seq<Mark>>)
    ensures r.None? <==> sessionId == "" || subjectId == ""
    ensures r.Some? ==> forall m :: m in r.value ==>
              && m.subjectId == subjectId && m.examSessionId == sessionId
              && m.studentId in entries && entries[m.studentId].Some? && m.score == entries[m.studentId]
              && exists s :: s in students && s.id == m.studentId && s.classId == classId && classId != ""
    ensures r.Some? ==> |r.value| == Count(Entered(entries), if classId == "" then [] else Filter(InClass(classId), students))
  {
    if sessionId == "" || subjectId == "" then None
    else
      var shown := if classId == "" then [] else Filter(InClass(classId), students);
      Some(MarksOf(shown, entries, subjectId, sessionId))
  }

  function Entered(entries: Entries): Student -> bool {
    (s: Student) => s.id in entries && entries[s.id].Some?
  }

  function MarksOf(students: seq<Student>, entries: Entries, subjectId: string, sessionId: string): (r: seq<Mark>)
    ensures |r| == Count(Entered(entries), students)
    ensures forall m :: m in r ==>
              && m.subjectId == subjectId && m.examSessionId == sessionId
              && m.studentId in entries && entries[m.studentId].Some? && m.score == entries[m.studentId]
              && exists s :: s in students && s.id == m.studentId
  {
    if |students| == 0 then []
    else
      var s := students[0];
      var rest := MarksOf(students[1..], entries, subjectId, sessionId);
      assert forall x :: x in students[1..] ==> x in students;
      if s.id in entries && entries[s.id].Some? then [Mark(s.id, subjectId, sessionId, entries[s.id])] + rest
      else rest
  }

  /** A teacher may not edit a cell whose first stored mark holds a score; an administrator
      may edit every cell. */
  predicate Locked(role: Role, marks: seq<Mark>, studentId: string, subjectId: string, sessionId: string) {
    role == Teacher && ScoreOf(marks, studentId, subjectId, sessionId).Some?
  }

  /** A teacher's cell is locked exactly when it was loaded with a score. */
  lemma LockedIffLoaded(students: seq<Student>, marks: seq<Mark>, classId: string, subjectId: string, sessionId: string, s: Student)
    requires classId != "" && subjectId != "" && sessionId != ""
    requires s in students && s.classId == classId
    ensures var loaded := LoadEntries(students, marks, classId, subjectId, sessionId);
            s.id in loaded && (Locked(Teacher, marks, s.id, subjectId, sessionId) <==> loaded[s.id].Some?)
  {
  }
}

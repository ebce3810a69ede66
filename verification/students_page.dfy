/** The student form of the admin students page: toggling the subjects a pupil takes, and the
    checks a submitted form must pass before the student is saved. */
module StudentsPage {
  import opened Wrappers
  import opened Collections
  import opened Text
  import opened Types
  import opened AccountNames

  /** The form's fields; `id` is absent for a new student and `gender` is `None` when the
      choice is empty. Fee amounts are the numbers the inputs hold. */
  datatype StudentForm = StudentForm(
    id: Option<string>,
    admissionNumber: string,
    name: string,
    classId: string,
    stream: string,
    parentUsername: string,
    gender: Option<Gender>,
    currentFeesBalance: real,
    nextTermFees: real)

  predicate NoRepeats(s: seq<string>) {
    forall i, j :: 0 <= i < j < |s| ==> s[i] != s[j]
  }

  // ---------------------------------------------------------------------------
  // subject selection (a JavaScript Set, kept in insertion order)

  /** The selection a form opens with: the edited student's subjects without repeats, or
      nothing for a new student. */
  function InitialSelection(editing: Option<Student>): (r: seq<string>)
    ensures NoRepeats(r)
    ensures editing.None? ==> r == []
    ensures editing.Some? ==> forall x :: x in r <==> x in editing.value.subjects
  {
    match editing
    case None => []
    case Some(s) => Distinct(s.subjects)
  }

  /** `sel` with `id` deleted, the rest in order. */
  function Without(sel: seq<string>, id: string): (r: seq<string>)
    ensures forall x :: x in r <==> x in sel && x != id
    ensures NoRepeats(sel) ==> NoRepeats(r)
    ensures |r| <= |sel|
    ensures id in sel && NoRepeats(sel) ==> |r| == |sel| - 1
    ensures id !in sel ==> r == sel
  {
    if |sel| == 0 then []
    else
      var rest := Without(sel[1..], id);
      assert forall x :: x in sel <==> x == sel[0] || x in sel[1..];
      if sel[0] == id then
        assert NoRepeats(sel) ==> id !in sel[1..];
        rest
      else
        var r := [sel[0]] + rest;
        assert NoRepeats(sel) ==> sel[0] !in rest;
        assert forall i :: 1 <= i < |r| ==> r[i] == rest[i - 1];
        r
  }

  /** Ticking a subject: a selected subject is removed, any other is added at the end; no other
      subject changes and the selection never holds a subject twice. */
  function ToggleSubject(sel: seq<string>, id: string): (r: seq<string>)
    ensures id in r <==> id !in sel
    ensures forall x :: x != id ==> (x in r <==> x in sel)
    ensures NoRepeats(sel) ==> NoRepeats(r)
    ensures NoRepeats(sel) ==> |r| == if id in sel then |sel| - 1 else |sel| + 1
  {
    if id in sel then Without(sel, id)
    else
      var r := sel + [id];
      assert forall x :: x in r <==> x in sel || x == id;
      r
  }

  /** Ticking the same subject twice gives back the same set of subjects, and the same
      selection when the subject was not selected. */
  lemma ToggleTwice(sel: seq<string>, id: string)
    requires NoRepeats(sel)
    ensures forall x :: x in ToggleSubject(ToggleSubject(sel, id), id) <==> x in sel
    ensures id !in sel ==> ToggleSubject(ToggleSubject(sel, id), id) == sel
  {
    if id !in sel {
      WithoutLast(sel, id);
    }
  }

  lemma {:induction false} WithoutLast(sel: seq<string>, id: string)
    requires id !in sel
    ensures Without(sel + [id], id) == sel
  {
    if |sel| > 0 {
      assert (sel + [id])[1..] == sel[1..] + [id];
      WithoutLast(sel[1..], id);
    }
  }

  // ---------------------------------------------------------------------------
  // submitting the form

  datatype StudentError =
    | MissingField
    | AdmissionTaken(holder: string)
    | ParentOutsideDomain
    | ParentUsernameHasSpace
    | NegativeFees

  /** What the form hands on to be saved: its fields and the selected subjects. */
  datatype SavedStudent = SavedStudent(form: StudentForm, subjects: seq<string>)

  /** The five required fields are non-empty; a blank but non-empty value passes. */
  predicate Filled(form: StudentForm) {
    form.admissionNumber != "" && form.name != "" && form.classId != ""
    && form.parentUsername != "" && form.gender.Some?
  }

  /** Another student already holds the admission number; a new student's form has no id, so
      every holder counts. */
  predicate HoldsNumberOf(s: Student, form: StudentForm) {
    s.admissionNumber == form.admissionNumber && Some(s.id) != form.id
  }

  /** The form's checks in order, each refusal ending the submission. `rule` is the parent
      username's domain check: `AsWritten` is the form as it stands, `CaseBlind` its fix. */
  function SubmitStudent(form: StudentForm, selection: seq<string>, students: seq<Student>, domain: string,
                         rule: DomainRule)
    : (r: Result<SavedStudent, StudentError>)
    ensures r.Success? <==>
              Filled(form)
              && (forall s :: s in students && s.admissionNumber == form.admissionNumber ==> form.id == Some(s.id))
              && Admits(rule, form.parentUsername, domain)
              && ' ' !in form.parentUsername
              && form.currentFeesBalance >= 0.0 && form.nextTermFees >= 0.0
    ensures r.Success? ==> r.value == SavedStudent(form, selection)
    ensures r == Failure(MissingField) <==> !Filled(form)
    ensures r.Failure? && r.error.AdmissionTaken? ==>
              Filled(form) && exists s :: s in students && HoldsNumberOf(s, form) && s.name == r.error.holder
    ensures r == Failure(ParentOutsideDomain) ==>
              Filled(form) && !Admits(rule, form.parentUsername, domain)
    ensures r == Failure(ParentUsernameHasSpace) ==>
              Filled(form) && Admits(rule, form.parentUsername, domain) && ' ' in form.parentUsername
    ensures r == Failure(NegativeFees) ==>
              Filled(form) && Admits(rule, form.parentUsername, domain) && ' ' !in form.parentUsername
              && (form.currentFeesBalance < 0.0 || form.nextTermFees < 0.0)
  {
    var conflict := Find((s: Student) => HoldsNumberOf(s, form), students);
    SpaceSurvivesLowering(form.parentUsername);
    if !Filled(form) then Failure(MissingField)
    else if conflict.Some? then Failure(AdmissionTaken(conflict.value.name))
    else if !Admits(rule, form.parentUsername, domain) then Failure(ParentOutsideDomain)
    else if ' ' in ToLower(form.parentUsername) then Failure(ParentUsernameHasSpace)
    else if form.currentFeesBalance < 0.0 || form.nextTermFees < 0.0 then Failure(NegativeFees)
    else
      assert forall s :: s in students && s.admissionNumber == form.admissionNumber ==> form.id == Some(s.id) by {
        forall s | s in students && s.admissionNumber == form.admissionNumber
          ensures form.id == Some(s.id)
        {
          var j :| 0 <= j < |students| && students[j] == s;
          assert !HoldsNumberOf(students[j], form);
        }
      }
      Success(SavedStudent(form, selection))
  }

  /** Under a stored domain with a capital letter, the form as written refuses every filled form
      whose admission number is free, at the domain check, whatever parent username is typed. */
  lemma CapitalDomainRefusesParents(form: StudentForm, selection: seq<string>, students: seq<Student>,
                                    domain: string, k: nat)
    requires k < |domain| && IsUpper(domain[k])
    requires Filled(form) && forall s :: s in students ==> !HoldsNumberOf(s, form)
    ensures SubmitStudent(form, selection, students, domain, AsWritten) == Failure(ParentOutsideDomain)
  {
    CapitalInDomainRefusesAll(form.parentUsername, domain, k);
  }

  /** When the stored domain has no capital letter the form as written and its fix decide every
      submission alike. */
  lemma StudentRulesAgree(form: StudentForm, selection: seq<string>, students: seq<Student>, domain: string)
    requires LowerOnly(domain)
    ensures SubmitStudent(form, selection, students, domain, AsWritten)
            == SubmitStudent(form, selection, students, domain, CaseBlind)
  {
    RulesAgreeOnLowerDomain(form.parentUsername, domain);
  }

  /** A new student whose parent is typed exactly as the stored domain "School.ac.ke" reads,
      whatever the local part (without a space): refused as written, accepted by the fix. */
  lemma SchoolParentRefused(local: string)
    requires ' ' !in local
    ensures var form := StudentForm(None, "A1", "Ann", "c1", "", local + "@School.ac.ke", Some(Female), 0.0, 0.0);
            && SubmitStudent(form, [], [], "School.ac.ke", AsWritten) == Failure(ParentOutsideDomain)
            && SubmitStudent(form, [], [], "School.ac.ke", CaseBlind).Success?
  {
    var form := StudentForm(None, "A1", "Ann", "c1", "", local + "@School.ac.ke", Some(Female), 0.0, 0.0);
    CapitalDomainRefusesParents(form, [], [], "School.ac.ke", 0);
    SchoolAddressTyped(local);
    assert ' ' !in form.parentUsername by {
      assert forall i :: 0 <= i < |form.parentUsername| ==>
        form.parentUsername[i] in local || form.parentUsername[i] in "@School.ac.ke";
    }
  }

  /** No two students share an admission number. */
  predicate UniqueAdmissions(students: seq<Student>) {
    forall i, j :: 0 <= i < j < |students| ==> students[i].admissionNumber != students[j].admissionNumber
  }

  predicate UniqueStudentIds(students: seq<Student>) {
    forall i, j :: 0 <= i < j < |students| ==> students[i].id != students[j].id
  }

  /** A student whose form was accepted, stored under `id` in place of the student that had
      that id (or added when none had), keeps admission numbers unique. */
  lemma AcceptedKeepsAdmissionsUnique(form: StudentForm, selection: seq<string>, students: seq<Student>,
                                      domain: string, rule: DomainRule, stored: Student, i: int)
    requires UniqueAdmissions(students) && UniqueStudentIds(students)
    requires SubmitStudent(form, selection, students, domain, rule).Success?
    requires stored.admissionNumber == form.admissionNumber
    requires form.id.Some? ==> stored.id == form.id.value
    requires -1 <= i < |students|
    requires i >= 0 ==> Some(students[i].id) == form.id
    requires i == -1 ==> forall s :: s in students ==> Some(s.id) != form.id
    ensures UniqueAdmissions(if i >= 0 then students[i := stored] else students + [stored])
  {
    var after := if i >= 0 then students[i := stored] else students + [stored];
    forall a, b | 0 <= a < b < |after|
      ensures after[a].admissionNumber != after[b].admissionNumber
    {
      var k := if i >= 0 then i else |students|;
      if a != k && b != k {
        assert after[a] == students[a] && after[b] == students[b];
      } else {
        var o := if a == k then b else a;
        assert after[o] == students[o] && students[o] in students;
        assert Some(students[o].id) != form.id by {
          if i >= 0 {
            assert o != i;
          }
        }
      }
    }
  }
}

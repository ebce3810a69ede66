/** Application-level changes to the stored records: storing a submitted batch of marks for one
    exam session, deleting a student together with the marks and parent account that depend on
    it, moving every account to a new school domain, and deleting a staff account. The
    confirmation dialogs become a `confirmed` flag; persistence and alerts are not modelled. */
module AppState {
  import opened Wrappers
  import opened Collections
  import opened Text
  import opened Types

  /** The part of the application state these handlers read and write. */
  datatype AppData = AppData(
    schoolName: string,
    domain: string,
    address: string,
    users: seq<User>,
    students: seq<Student>,
    marks: seq<Mark>,
    currentUser: Option<User>)

  // ---------------------------------------------------------------------------
  // marks submission

  /** Two marks are for the same student and subject: the key within one session. */
  predicate SameSlot(a: Mark, b: Mark) {
    a.studentId == b.studentId && a.subjectId == b.subjectId
  }

  function SlotOf(u: Mark): Mark -> bool {
    (m: Mark) => SameSlot(m, u)
  }

  /** One submitted mark stored into the session's marks: it replaces, in place, the first mark
      for its student and subject, or is appended when there is none. */
  function Upsert(ms: seq<Mark>, u: Mark): (r: seq<Mark>)
    ensures u in r
    ensures |r| == |ms| + 1 <==> forall i :: 0 <= i < |ms| ==> !SameSlot(ms[i], u)
    ensures |r| == |ms| + 1 ==> r[..|ms|] == ms
    ensures |r| == |ms| || |r| == |ms| + 1
    ensures forall i :: 0 <= i < |ms| && r[i] != ms[i] ==>
              r[i] == u && SameSlot(ms[i], u) && forall j :: 0 <= j < i ==> !SameSlot(ms[j], u)
    ensures forall m :: m in ms && !SameSlot(m, u) ==> m in r
    ensures forall m :: m in r ==> m in ms || m == u
  {
    match FindIndex(SlotOf(u), ms)
    case Some(i) =>
      var r := ms[i := u];
      assert forall m :: m in ms && !SameSlot(m, u) ==> m in r by {
        forall m | m in ms && !SameSlot(m, u)
          ensures m in r
        {
          var k :| 0 <= k < |ms| && ms[k] == m;
          assert r[k] == m;
        }
      }
      assert r[i] == u;
      r
    case None => ms + [u]
  }

  /** The submitted marks stored one after another, in the order submitted. */
  function UpsertAll(ms: seq<Mark>, updated: seq<Mark>): (r: seq<Mark>)
    ensures |ms| <= |r|
    ensures forall i :: 0 <= i < |ms| ==> r[i] == ms[i] || (r[i] in updated && SameSlot(ms[i], r[i]))
    ensures forall m :: m in r ==> m in ms || m in updated
    decreases |updated|
  {
    if |updated| == 0 then ms
    else
      var next := Upsert(ms, updated[0]);
      var r := UpsertAll(next, updated[1..]);
      assert forall m :: m in updated[1..] ==> m in updated;
      r
  }

  /** A mark whose slot no submitted mark shares survives the whole batch. */
  lemma {:induction false} UntouchedSurvives(ms: seq<Mark>, updated: seq<Mark>, x: Mark)
    requires x in ms
    requires forall j :: 0 <= j < |updated| ==> !SameSlot(x, updated[j])
    ensures x in UpsertAll(ms, updated)
    decreases |updated|
  {
    if |updated| > 0 {
      UntouchedSurvives(Upsert(ms, updated[0]), updated[1..], x);
    }
  }

  /** The last submitted mark for a student and subject is the one stored. */
  lemma {:induction false} LastSubmittedStored(ms: seq<Mark>, updated: seq<Mark>, k: nat)
    requires k < |updated|
    requires forall j :: k < j < |updated| ==> !SameSlot(updated[j], updated[k])
    ensures updated[k] in UpsertAll(ms, updated)
    decreases |updated|
  {
    var next := Upsert(ms, updated[0]);
    if k == 0 {
      UntouchedSurvives(next, updated[1..], updated[0]);
    } else {
      LastSubmittedStored(next, updated[1..], k - 1);
    }
  }

  /** No two marks share a student and subject. */
  predicate UniqueSlots(ms: seq<Mark>) {
    forall i, j :: 0 <= i < j < |ms| ==> !SameSlot(ms[i], ms[j])
  }

  lemma UpsertKeepsUnique(ms: seq<Mark>, u: Mark)
    requires UniqueSlots(ms)
    ensures UniqueSlots(Upsert(ms, u))
  {
    var r := Upsert(ms, u);
    if |r| == |ms| {
      forall i, j | 0 <= i < j < |r|
        ensures !SameSlot(r[i], r[j])
      {
        if r[i] != ms[i] {
          assert r[j] == ms[j];
        } else if r[j] != ms[j] {
          assert SameSlot(ms[j], u);
        }
      }
    }
  }

  /** Storing a batch never creates a second mark for a student and subject. */
  lemma {:induction false} UpsertAllKeepsUnique(ms: seq<Mark>, updated: seq<Mark>)
    requires UniqueSlots(ms)
    ensures UniqueSlots(UpsertAll(ms, updated))
    decreases |updated|
  {
    if |updated| > 0 {
      UpsertKeepsUnique(ms, updated[0]);
      UpsertAllKeepsUnique(Upsert(ms, updated[0]), updated[1..]);
    }
  }

  function InSession(sessionId: string): Mark -> bool {
    (m: Mark) => m.examSessionId == sessionId
  }

  function OtherSession(sessionId: string): Mark -> bool {
    (m: Mark) => m.examSessionId != sessionId
  }

  /** Marks after a submission for `sessionId`: the marks of other sessions first, untouched,
      then the session's marks with the submitted ones stored into them. */
  function SubmitMarks(marks: seq<Mark>, updated: seq<Mark>, sessionId: string): (r: seq<Mark>)
    ensures var others := Filter(OtherSession(sessionId), marks);
            |r| >= |others| + |Filter(InSession(sessionId), marks)| && r[..|others|] == others
  {
    var others := Filter(OtherSession(sessionId), marks);
    var r := others + UpsertAll(Filter(InSession(sessionId), marks), updated);
    assert r[..|others|] == others;
    r
  }

  /** A submission deletes nothing from the session: each of its stored marks keeps its place,
      holding either the same mark or a submitted mark for the same student and subject. */
  lemma SubmitNeverDeletes(marks: seq<Mark>, updated: seq<Mark>, sessionId: string, i: nat)
    requires i < |Filter(InSession(sessionId), marks)|
    ensures StoredOrReplaced(SubmitMarks(marks, updated, sessionId)[|Filter(OtherSession(sessionId), marks)| + i],
                             Filter(InSession(sessionId), marks)[i], updated)
  {
    var others := Filter(OtherSession(sessionId), marks);
    var before := Filter(InSession(sessionId), marks);
    var current := UpsertAll(before, updated);
    assert current[i] == before[i] || (current[i] in updated && SameSlot(before[i], current[i]));
    SubmitShape(marks, updated, sessionId);
    ConcatAt(others, current, i);
    assert SubmitMarks(marks, updated, sessionId)[|others| + i] == current[i];
  }

  /** `m` sits where `stored` was: it is `stored` itself or a submitted mark for the same student
      and subject. */
  predicate StoredOrReplaced(m: Mark, stored: Mark, updated: seq<Mark>) {
    m == stored || (m in updated && SameSlot(stored, m))
  }

  lemma ConcatAt(others: seq<Mark>, current: seq<Mark>, i: nat)
    requires i < |current|
    ensures (others + current)[|others| + i] == current[i]
  {
  }

  lemma SubmitShape(marks: seq<Mark>, updated: seq<Mark>, sessionId: string)
    ensures SubmitMarks(marks, updated, sessionId)
            == Filter(OtherSession(sessionId), marks) + UpsertAll(Filter(InSession(sessionId), marks), updated)
  {
  }

  /** A submission keeps every mark of another session. */
  lemma SubmitKeepsOtherSessions(marks: seq<Mark>, updated: seq<Mark>, sessionId: string, m: Mark)
    requires m in marks && m.examSessionId != sessionId
    ensures m in SubmitMarks(marks, updated, sessionId)
  {
    var others := Filter(OtherSession(sessionId), marks);
    var r := SubmitMarks(marks, updated, sessionId);
    assert m in others;
    var k :| 0 <= k < |others| && others[k] == m;
    assert r[..|others|][k] == m;
  }

  /** Every mark after a submission was stored before or was submitted. */
  lemma SubmitInventsNothing(marks: seq<Mark>, updated: seq<Mark>, sessionId: string, m: Mark)
    requires m in SubmitMarks(marks, updated, sessionId)
    ensures m in marks || m in updated
  {
    var others := Filter(OtherSession(sessionId), marks);
    var before := Filter(InSession(sessionId), marks);
    var current := UpsertAll(before, updated);
    assert SubmitMarks(marks, updated, sessionId) == others + current;
    if m in current {
      assert m in before || m in updated;
    }
  }

  /** After a submission in which every mark is tagged with the session, and with at most one
      stored mark per student and subject in that session beforehand, the score read back for
      a submitted student and subject is the last one submitted for them. */
  lemma SubmittedScoreIsRead(marks: seq<Mark>, updated: seq<Mark>, sessionId: string, k: nat)
    requires forall j :: 0 <= j < |updated| ==> updated[j].examSessionId == sessionId
    requires UniqueSlots(Filter(InSession(sessionId), marks))
    requires k < |updated|
    requires forall j :: k < j < |updated| ==> !SameSlot(updated[j], updated[k])
    ensures ScoreOf(SubmitMarks(marks, updated, sessionId), updated[k].studentId, updated[k].subjectId, sessionId)
            == updated[k].score
  {
    var others := Filter(OtherSession(sessionId), marks);
    var before := Filter(InSession(sessionId), marks);
    var current := UpsertAll(before, updated);
    assert SubmitMarks(marks, updated, sessionId) == others + current;
    LastSubmittedStored(before, updated, k);
    UpsertAllKeepsUnique(before, updated);
    forall m | m in current
      ensures m.examSessionId == sessionId
    {
      assert m in before || m in updated;
    }
    ReadFromSession(others, current, updated[k], sessionId);
  }

  /** The score read for a mark of a session part with one mark per student and subject, behind
      marks of other sessions, is that mark's. */
  lemma ReadFromSession(others: seq<Mark>, current: seq<Mark>, u: Mark, sessionId: string)
    requires forall m :: m in others ==> m.examSessionId != sessionId
    requires forall m :: m in current ==> m.examSessionId == sessionId
    requires UniqueSlots(current) && u in current
    ensures ScoreOf(others + current, u.studentId, u.subjectId, sessionId) == u.score
  {
    var r := others + current;
    var p :| 0 <= p < |current| && current[p] == u;
    assert r[|others| + p] == u;
    var found := FindMark(r, u.studentId, u.subjectId, sessionId);
    var m := found.value;
    var q :| 0 <= q < |r| && r[q] == m;
    assert current[q - |others|] == m;
    assert SameSlot(current[q - |others|], current[p]);
  }

  // ---------------------------------------------------------------------------
  // student deletion

  predicate HasStudentId(studentId: string, s: Student) {
    s.id == studentId
  }

  /** The parent account of a parent username: the first parent user whose username matches it
      ignoring letter case. */
  function ParentAccount(users: seq<User>, parentUsername: string): (r: Option<User>)
    ensures r.Some? ==> r.value in users && r.value.role == Parent && ToLower(r.value.username) == ToLower(parentUsername)
    ensures r.None? <==> forall u :: u in users ==> !(u.role == Parent && ToLower(u.username) == ToLower(parentUsername))
  {
    Find((u: User) => ToLower(u.username) == ToLower(parentUsername) && u.role == Parent, users)
  }

  /** Some student in `students` has `parent` as parent, ignoring letter case. */
  predicate HasChild(students: seq<Student>, parent: User) {
    exists s :: s in students && ToLower(s.parentUsername) == ToLower(parent.username)
  }

  /** The parent account that a confirmed deletion of `studentId` also removes: the student's
      parent account, when no other student is left with that parent. */
  function OrphanedParent(st: AppData, studentId: string, confirmed: bool): (r: Option<User>)
    ensures r.Some? ==>
              && confirmed
              && r.value in st.users && r.value.role == Parent
              && (exists s :: s in st.students && s.id == studentId && ToLower(s.parentUsername) == ToLower(r.value.username))
              && forall s :: s in st.students && s.id != studentId ==> ToLower(s.parentUsername) != ToLower(r.value.username)
  {
    if !confirmed then None
    else match Find((s: Student) => HasStudentId(studentId, s), st.students)
      case None => None
      case Some(student) =>
        var remaining := Filter((s: Student) => !HasStudentId(studentId, s), st.students);
        match ParentAccount(st.users, student.parentUsername)
        case None => None
        case Some(p) => if HasChild(remaining, p) then None else Some(p)
  }

  /** A confirmed deletion of an existing student removes that student and all of their marks,
      and the parent account that no remaining student uses; a cancelled deletion, or one for an
      unknown id, changes nothing. */
  function DeleteStudent(st: AppData, studentId: string, confirmed: bool): (r: AppData)
    ensures var removes := confirmed && exists s :: s in st.students && s.id == studentId;
            && (!removes ==> r == st)
            && (removes ==> forall s :: s in r.students <==> s in st.students && s.id != studentId)
            && (removes ==> forall m :: m in r.marks <==> m in st.marks && m.studentId != studentId)
    ensures var gone := OrphanedParent(st, studentId, confirmed);
            forall u :: u in r.users <==> u in st.users && (gone.None? || u.id != gone.value.id)
    ensures r.(users := st.users, students := st.students, marks := st.marks) == st
  {
    if !confirmed then st
    else match Find((s: Student) => HasStudentId(studentId, s), st.students)
      case None => st
      case Some(student) =>
        var students := Filter((s: Student) => !HasStudentId(studentId, s), st.students);
        var marks := Filter((m: Mark) => m.studentId != studentId, st.marks);
        var users := match OrphanedParent(st, studentId, confirmed)
          case None => st.users
          case Some(p) => Filter((u: User) => u.id != p.id, st.users);
        assert student in st.students && student.id == studentId;
        assert student !in students;
        st.(students := students, marks := marks, users := users)
  }

  /** Every mark belongs to a recorded student. */
  predicate MarksOwned(st: AppData) {
    forall m :: m in st.marks ==> exists s :: s in st.students && s.id == m.studentId
  }

  /** Every student's parent username has a parent account, ignoring letter case. */
  predicate ParentsHaveAccounts(st: AppData) {
    forall s :: s in st.students ==>
      exists u :: u in st.users && u.role == Parent && ToLower(u.username) == ToLower(s.parentUsername)
  }

  predicate UniqueUserIds(users: seq<User>) {
    forall i, j :: 0 <= i < j < |users| ==> users[i].id != users[j].id
  }

  /** Deletion leaves no mark without its student and no student without a parent account. */
  lemma DeleteKeepsRecordsLinked(st: AppData, studentId: string, confirmed: bool)
    requires MarksOwned(st) && ParentsHaveAccounts(st) && UniqueUserIds(st.users)
    ensures MarksOwned(DeleteStudent(st, studentId, confirmed))
    ensures ParentsHaveAccounts(DeleteStudent(st, studentId, confirmed))
  {
    var r := DeleteStudent(st, studentId, confirmed);
    var removes := confirmed && exists s :: s in st.students && s.id == studentId;
    if removes {
      forall m | m in r.marks
        ensures exists s :: s in r.students && s.id == m.studentId
      {
        var s :| s in st.students && s.id == m.studentId;
        assert s in r.students;
      }
    }
    var gone := OrphanedParent(st, studentId, confirmed);
    forall s | s in r.students
      ensures exists u :: u in r.users && u.role == Parent && ToLower(u.username) == ToLower(s.parentUsername)
    {
      var u :| u in st.users && u.role == Parent && ToLower(u.username) == ToLower(s.parentUsername);
      if gone.Some? {
        var i :| 0 <= i < |st.users| && st.users[i] == u;
        var j :| 0 <= j < |st.users| && st.users[j] == gone.value;
        assert ToLower(s.parentUsername) != ToLower(gone.value.username);
        assert i != j;
      }
      assert u in r.users;
    }
  }

  // ---------------------------------------------------------------------------
  // school details and the domain rewrite

  /** `name` is an account under `domain`: it ends with "@" and the domain. */
  predicate AtDomain(name: string, domain: string) {
    EndsWith(name, "@" + domain)
  }

  /** An account name moved from `oldDomain` to `newDomain`: the text before the first "@", then "@" and
      `newDomain`; names not under `oldDomain` are kept. */
  function MoveAccount(name: string, oldDomain: string, newDomain: string): (r: string)
    ensures !AtDomain(name, oldDomain) ==> r == name
    ensures AtDomain(name, oldDomain) ==> AtDomain(r, newDomain) && BeforeFirst(r, '@') == BeforeFirst(name, '@')
  {
    if AtDomain(name, oldDomain) then
      var local := BeforeFirst(name, '@');
      var r := local + "@" + newDomain;
      LocalPartKept(local, newDomain);
      assert r[|r| - |"@" + newDomain|..] == "@" + newDomain;
      r
    else name
  }

  lemma {:induction false} LocalPartKept(local: string, newDomain: string)
    requires '@' !in local
    ensures BeforeFirst(local + "@" + newDomain, '@') == local
  {
    if |local| > 0 {
      assert (local + "@" + newDomain)[0] == local[0];
      assert (local + "@" + newDomain)[1..] == local[1..] + "@" + newDomain;
      LocalPartKept(local[1..], newDomain);
    }
  }

  const SuperAdmin: string := "superadmin"

  /** A user moved to the new domain; the super administrator is skipped. */
  function MoveUser(u: User, oldDomain: string, newDomain: string): (r: User)
    ensures r == u.(username := r.username)
    ensures u.username == SuperAdmin ==> r == u
    ensures u.username != SuperAdmin ==> r.username == MoveAccount(u.username, oldDomain, newDomain)
  {
    if u.username != SuperAdmin then u.(username := MoveAccount(u.username, oldDomain, newDomain)) else u
  }

  function MoveStudent(s: Student, oldDomain: string, newDomain: string): (r: Student)
    ensures r == s.(parentUsername := MoveAccount(s.parentUsername, oldDomain, newDomain))
  {
    s.(parentUsername := MoveAccount(s.parentUsername, oldDomain, newDomain))
  }

  /** The super administrator's name has no domain, so skipping it changes nothing: every user
      is moved exactly as its name is. */
  lemma SuperAdminSkipIsRedundant(u: User, oldDomain: string, newDomain: string)
    ensures MoveUser(u, oldDomain, newDomain).username == MoveAccount(u.username, oldDomain, newDomain)
  {
    if u.username == SuperAdmin {
      assert '@' !in SuperAdmin;
      assert !AtDomain(u.username, oldDomain) by {
        var t := "@" + oldDomain;
        assert |t| > 0 && t[0] == '@';
        if |t| <= |SuperAdmin| {
          assert SuperAdmin[|SuperAdmin| - |t|] == '@' || SuperAdmin[|SuperAdmin| - |t|..] != t;
        }
      }
    }
  }

  /** The update is refused when the name, domain or address is blank, and is a no-op when
      nothing differs from the stored details. */
  predicate DetailsRefused(st: AppData, name: string, domain: string, address: string) {
    || IsBlank(name) || Trim(domain) == [] || IsBlank(address)
    || (st.domain == Trim(domain) && st.schoolName == name && st.address == address)
  }

  /** Saving the school details: the name and address are stored as typed, the domain trimmed,
      and every user, parent username and the signed-in user under the oldDomain domain moves to the
      newDomain one. */
  function UpdateSchoolDetails(st: AppData, name: string, domain: string, address: string): (r: AppData)
    ensures DetailsRefused(st, name, domain, address) ==> r == st
    ensures !DetailsRefused(st, name, domain, address) ==>
              && r.schoolName == name && r.address == address && r.domain == Trim(domain)
              && r.marks == st.marks
              && |r.users| == |st.users| && |r.students| == |st.students|
              && (forall i :: 0 <= i < |st.users| ==> r.users[i] == MoveUser(st.users[i], st.domain, Trim(domain)))
              && (forall i :: 0 <= i < |st.students| ==> r.students[i] == MoveStudent(st.students[i], st.domain, Trim(domain)))
              && (st.currentUser.None? ==> r.currentUser.None?)
              && (st.currentUser.Some? ==> r.currentUser == Some(MoveUser(st.currentUser.value, st.domain, Trim(domain))))
  {
    if DetailsRefused(st, name, domain, address) then st
    else
      var oldDomain, newDomain := st.domain, Trim(domain);
      AppData(
        name, newDomain, address,
        Map((u: User) => MoveUser(u, oldDomain, newDomain), st.users),
        Map((s: Student) => MoveStudent(s, oldDomain, newDomain), st.students),
        st.marks,
        match st.currentUser
        case None => None
        case Some(u) => Some(MoveUser(u, oldDomain, newDomain)))
  }

  /** A parent username that named an account still names it after the move. */
  lemma DomainMoveKeepsParentLinks(st: AppData, name: string, domain: string, address: string, i: nat, j: nat)
    requires i < |st.students| && j < |st.users|
    requires st.students[i].parentUsername == st.users[j].username
    ensures var r := UpdateSchoolDetails(st, name, domain, address);
            r.students[i].parentUsername == r.users[j].username
  {
    if !DetailsRefused(st, name, domain, address) {
      SuperAdminSkipIsRedundant(st.users[j], st.domain, Trim(domain));
    }
  }

  /** The move compares domains with letter case while parents are matched without it: a
      student whose parent username was typed as "...@MySchool.ac.ke" under the stored domain
      "myschool.ac.ke" keeps that name, while the parent account "...@myschool.ac.ke" it
      matched moves to the new domain, so the two no longer match. */
  lemma MixedCaseParentLeftBehind(local: string, newDomain: string)
    requires '@' !in local
    ensures MoveAccount(local + "@MySchool.ac.ke", "myschool.ac.ke", newDomain) == local + "@MySchool.ac.ke"
    ensures MoveAccount(local + "@myschool.ac.ke", "myschool.ac.ke", newDomain) == local + "@" + newDomain
  {
    var typed := local + "@MySchool.ac.ke";
    var suffix := "@" + "myschool.ac.ke";
    assert typed[|typed| - |suffix| + 1] == 'M';
    assert !AtDomain(typed, "myschool.ac.ke");
    var account := local + "@myschool.ac.ke";
    assert account == local + suffix == local + "@" + "myschool.ac.ke";
    EndsWithAppend(local, suffix);
    BeforeFirstOfLocal(local, "myschool.ac.ke");
    assert AtDomain(account, "myschool.ac.ke") && BeforeFirst(account, '@') == local;
  }

  lemma {:induction false} BeforeFirstOfLocal(local: string, domain: string)
    requires '@' !in local
    ensures BeforeFirst(local + "@" + domain, '@') == local
  {
    if |local| > 0 {
      assert (local + "@" + domain)[1..] == local[1..] + "@" + domain;
      BeforeFirstOfLocal(local[1..], domain);
    }
  }

  /** After an accepted update every account that was under the old domain is under the new one
      with its local part unchanged. */
  lemma DomainMoveCompletes(st: AppData, name: string, domain: string, address: string, j: nat)
    requires !DetailsRefused(st, name, domain, address)
    requires j < |st.users| && AtDomain(st.users[j].username, st.domain)
    ensures var r := UpdateSchoolDetails(st, name, domain, address);
            AtDomain(r.users[j].username, r.domain)
            && BeforeFirst(r.users[j].username, '@') == BeforeFirst(st.users[j].username, '@')
  {
    SuperAdminSkipIsRedundant(st.users[j], st.domain, Trim(domain));
  }

  /** Saving the same details a second time changes nothing. */
  lemma UpdateIdempotent(st: AppData, name: string, domain: string, address: string)
    ensures var once := UpdateSchoolDetails(st, name, domain, address);
            UpdateSchoolDetails(once, name, domain, address) == once
  {
  }

  // ---------------------------------------------------------------------------
  // staff deletion

  /** A user deletion goes ahead when it is confirmed and the first user with the id is not the
      super administrator. */
  predicate UserDeletionAllowed(users: seq<User>, userId: string, confirmed: bool) {
    var target := Find((u: User) => u.id == userId, users);
    confirmed && !(target.Some? && target.value.username == SuperAdmin)
  }

  /** Deleting a user: every user with the id goes when the deletion is allowed; nothing changes
      otherwise. */
  function DeleteUser(users: seq<User>, userId: string, confirmed: bool): (r: seq<User>)
    ensures forall u :: u in r ==> u in users
    ensures forall u :: u in users && u.id != userId ==> u in r
    ensures UserDeletionAllowed(users, userId, confirmed) ==> forall u :: u in r ==> u.id != userId
    ensures !UserDeletionAllowed(users, userId, confirmed) ==> r == users
  {
    if UserDeletionAllowed(users, userId, confirmed) then Filter((u: User) => u.id != userId, users)
    else users
  }

  /** With distinct ids the super administrator account is never deleted. */
  lemma SuperAdminNeverDeleted(users: seq<User>, userId: string, confirmed: bool, admin: User)
    requires UniqueUserIds(users)
    requires admin in users && admin.username == SuperAdmin
    ensures admin in DeleteUser(users, userId, confirmed)
  {
    var target := Find((u: User) => u.id == userId, users);
    if admin.id == userId {
      var i :| 0 <= i < |users| && users[i] == admin;
      var j :| 0 <= j < |users| && users[j] == target.value;
      assert i == j;
    }
  }
}

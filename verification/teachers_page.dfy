/** The admin page for teachers and administrators: the list it shows, the class-and-subject
    assignment grid of its form, and the checks a submitted form must pass. */
module TeachersPage {
  import opened Wrappers
  import opened Collections
  import opened Text
  import opened Types
  import opened AccountNames
  import opened StudentsPage
  import opened AppState

  // ---------------------------------------------------------------------------
  // the staff list

  predicate Shown(u: User) {
    (u.role == Teacher || u.role == Admin) && u.username != SuperAdmin
  }

  /** The users listed: teachers and administrators other than the super administrator, in the
      stored order. */
  function StaffList(users: seq<User>): (r: seq<User>)
    ensures forall u :: u in r <==> u in users && (u.role == Teacher || u.role == Admin) && u.username != SuperAdmin
    ensures |r| <= |users|
  {
    Filter(Shown, users)
  }

  /** Every user the page offers to delete may be deleted once confirmed: the super
      administrator, the one account the deletion refuses, is never listed. */
  lemma ListedAreDeletable(users: seq<User>, u: User)
    requires UniqueUserIds(users)
    requires u in StaffList(users)
    ensures UserDeletionAllowed(users, u.id, true)
    ensures u !in DeleteUser(users, u.id, true)
  {
    var target := Find((v: User) => v.id == u.id, users);
    var i :| 0 <= i < |users| && users[i] == u;
    var j :| 0 <= j < |users| && users[j] == target.value;
    assert i == j;
  }

  // ---------------------------------------------------------------------------
  // the assignment grid: class id to the subjects taught there, in the order the classes were
  // first ticked (a JavaScript object keyed by class id)

  predicate UniqueClasses(grid: seq<Assignment>) {
    forall i, j :: 0 <= i < j < |grid| ==> grid[i].classId != grid[j].classId
  }

  /** No class is kept with an empty subject list. */
  predicate NoEmptyClasses(grid: seq<Assignment>) {
    forall i :: 0 <= i < |grid| ==> |grid[i].subjectIds| > 0
  }

  predicate HasClass(grid: seq<Assignment>, classId: string) {
    exists i :: 0 <= i < |grid| && grid[i].classId == classId
  }

  /** The subjects ticked for a class, empty when the class has no entry. */
  function Lookup(grid: seq<Assignment>, classId: string): (r: seq<string>)
    ensures !HasClass(grid, classId) ==> r == []
    ensures UniqueClasses(grid) ==> forall i :: 0 <= i < |grid| && grid[i].classId == classId ==> r == grid[i].subjectIds
  {
    if |grid| == 0 then []
    else if grid[0].classId == classId then grid[0].subjectIds
    else
      assert forall i :: 1 <= i < |grid| ==> grid[i] == grid[1..][i - 1];
      Lookup(grid[1..], classId)
  }

  /** Setting a class's subjects: an existing entry keeps its place, a new class goes last. */
  function Put(grid: seq<Assignment>, classId: string, subjects: seq<string>): (r: seq<Assignment>)
    ensures Assignment(classId, subjects) in r
    ensures HasClass(grid, classId) ==> |r| == |grid|
    ensures forall i :: 0 <= i < |grid| && grid[i].classId != classId ==> i < |r| && r[i] == grid[i]
    ensures forall i :: 0 <= i < |r| ==> r[i] == Assignment(classId, subjects) || (i < |grid| && r[i] == grid[i])
    ensures UniqueClasses(grid) ==> UniqueClasses(r)
  {
    var i := FindIndex((a: Assignment) => a.classId == classId, grid);
    if i.Some? then
      var r := grid[i.value := Assignment(classId, subjects)];
      assert r[i.value] == Assignment(classId, subjects);
      r
    else
      var r := grid + [Assignment(classId, subjects)];
      assert r[|grid|] == Assignment(classId, subjects);
      r
  }

  /** Dropping a class's entry, the others in order. */
  function Delete(grid: seq<Assignment>, classId: string): (r: seq<Assignment>)
    ensures forall a :: a in r <==> a in grid && a.classId != classId
  {
    if |grid| == 0 then []
    else
      var rest := Delete(grid[1..], classId);
      assert forall a :: a in grid <==> a == grid[0] || a in grid[1..];
      if grid[0].classId == classId then rest else [grid[0]] + rest
  }

  /** Dropping an entry keeps the classes distinct. */
  lemma {:induction false} DeleteKeepsUnique(grid: seq<Assignment>, classId: string)
    ensures UniqueClasses(grid) ==> UniqueClasses(Delete(grid, classId))
  {
    if |grid| > 0 && UniqueClasses(grid) {
      var tail := grid[1..];
      assert forall i :: 0 <= i < |tail| ==> tail[i] == grid[i + 1];
      DeleteKeepsUnique(tail, classId);
      var rest := Delete(tail, classId);
      if grid[0].classId != classId {
        var r := [grid[0]] + rest;
        forall j | 1 <= j < |r|
          ensures r[j].classId != grid[0].classId
        {
          assert r[j] == rest[j - 1] && rest[j - 1] in rest;
          var k :| 0 <= k < |tail| && tail[k] == r[j];
        }
        forall i, j | 0 <= i < j < |r|
          ensures r[i].classId != r[j].classId
        {
          if i > 0 {
            assert r[i] == rest[i - 1] && r[j] == rest[j - 1];
          }
        }
      }
    }
  }

  /** Ticking a subject for a class flips that one subject; a class left with no subjects is
      dropped from the grid. */
  function ToggleAssignment(grid: seq<Assignment>, classId: string, subjectId: string): (r: seq<Assignment>)
    ensures UniqueClasses(grid) ==> UniqueClasses(r)
    ensures NoEmptyClasses(grid) ==> NoEmptyClasses(r)
  {
    var current := Lookup(grid, classId);
    var next := ToggleSubject(current, subjectId);
    if |next| > 0 then
      var r := Put(grid, classId, next);
      assert forall i :: 0 <= i < |r| ==> r[i] == Assignment(classId, next) || (i < |grid| && r[i] == grid[i]);
      r
    else
      var r := Delete(grid, classId);
      DeleteKeepsUnique(grid, classId);
      assert forall i :: 0 <= i < |r| ==> r[i] in r && r[i] in grid;
      r
  }

  /** Ticking a subject changes only that subject of that class: the class's list gains or
      loses exactly it, every other class keeps its list, and the class stays in the grid
      exactly when subjects remain. */
  lemma ToggleAssignmentEffect(grid: seq<Assignment>, classId: string, subjectId: string, other: string)
    requires UniqueClasses(grid) && NoEmptyClasses(grid)
    ensures var r := ToggleAssignment(grid, classId, subjectId);
            && (forall x :: x in Lookup(r, classId) <==> (x in Lookup(grid, classId)) != (x == subjectId))
            && (HasClass(r, classId) <==> |Lookup(r, classId)| > 0)
            && (other != classId ==> Lookup(r, other) == Lookup(grid, other))
  {
    var r := ToggleAssignment(grid, classId, subjectId);
    var next := ToggleSubject(Lookup(grid, classId), subjectId);
    if |next| > 0 {
      var i :| 0 <= i < |r| && r[i] == Assignment(classId, next);
      assert Lookup(r, classId) == next;
      if HasClass(grid, other) && other != classId {
        var k :| 0 <= k < |grid| && grid[k].classId == other;
        assert r[k] == grid[k];
      }
      if HasClass(r, other) && other != classId {
        var k :| 0 <= k < |r| && r[k].classId == other;
        assert k < |grid| && r[k] == grid[k];
      }
    } else {
      assert !HasClass(r, classId) by {
        forall i | 0 <= i < |r|
          ensures r[i].classId != classId
        {
          assert r[i] in r;
        }
      }
      assert forall x :: x !in next;
      if HasClass(grid, other) && other != classId {
        var k :| 0 <= k < |grid| && grid[k].classId == other;
        assert grid[k] in r;
      }
      if HasClass(r, other) && other != classId {
        var k :| 0 <= k < |r| && r[k].classId == other;
        assert r[k] in r;
      }
    }
  }

  /** The grid a form opens with: one entry per class in the user's stored assignments, a class
      listed twice keeping its first place and its last list. */
  function InitialGrid(assignments: seq<Assignment>): (r: seq<Assignment>)
    ensures UniqueClasses(r)
    ensures forall c :: HasClass(r, c) <==> exists a :: a in assignments && a.classId == c
    decreases |assignments|
  {
    if |assignments| == 0 then []
    else
      var n := |assignments| - 1;
      var prev := InitialGrid(assignments[..n]);
      var a := assignments[n];
      assert forall x :: x in assignments <==> x in assignments[..n] || x == a by {
        assert assignments == assignments[..n] + [a];
      }
      var r := Put(prev, a.classId, a.subjectIds);
      assert forall c :: HasClass(r, c) <==> HasClass(prev, c) || c == a.classId by {
        forall c | HasClass(prev, c) ensures HasClass(r, c) {
          var k :| 0 <= k < |prev| && prev[k].classId == c;
          if c != a.classId {
            assert r[k] == prev[k];
          }
        }
        forall c | c == a.classId ensures HasClass(r, c) {
          var k :| 0 <= k < |r| && r[k] == Assignment(a.classId, a.subjectIds);
        }
      }
      r
  }

  // ---------------------------------------------------------------------------
  // submitting the form

  /** The validated fields of the form; `id` is present when a user is being edited. */
  datatype StaffForm = StaffForm(id: Option<string>, name: string, username: string, password: string)

  datatype StaffError =
    | MissingNameOrUsername
    | MissingPassword
    | OutsideDomain
    | UsernameTaken

  /** What the form hands on to be saved: its fields and the grid's entries. */
  datatype SavedStaff = SavedStaff(form: StaffForm, assignments: seq<Assignment>)

  /** Another user already has the username, ignoring case. */
  predicate ClashesWith(u: User, form: StaffForm) {
    ToLower(u.username) == ToLower(form.username) && Some(u.id) != form.id
  }

  /** The form's checks in order; a password is demanded only for a new user. `rule` is the
      username's domain check: `AsWritten` is the form as it stands, `CaseBlind` its fix. */
  function SubmitStaff(form: StaffForm, editing: bool, grid: seq<Assignment>, users: seq<User>, domain: string,
                       rule: DomainRule)
    : (r: Result<SavedStaff, StaffError>)
    ensures r.Success? <==>
              form.name != "" && form.username != ""
              && (editing || form.password != "")
              && Admits(rule, form.username, domain)
              && forall u :: u in users && ToLower(u.username) == ToLower(form.username) ==> form.id == Some(u.id)
    ensures r.Success? ==> r.value == SavedStaff(form, grid)
    ensures r == Failure(MissingNameOrUsername) <==> form.name == "" || form.username == ""
    ensures r == Failure(MissingPassword) <==>
              form.name != "" && form.username != "" && !editing && form.password == ""
    ensures r == Failure(OutsideDomain) ==> !Admits(rule, form.username, domain)
    ensures r == Failure(UsernameTaken) ==>
              Admits(rule, form.username, domain) && exists u :: u in users && ClashesWith(u, form)
  {
    var clash := Find((u: User) => ClashesWith(u, form), users);
    if form.name == "" || form.username == "" then Failure(MissingNameOrUsername)
    else if !editing && form.password == "" then Failure(MissingPassword)
    else if !Admits(rule, form.username, domain) then Failure(OutsideDomain)
    else if clash.Some? then Failure(UsernameTaken)
    else
      assert forall u :: u in users && ToLower(u.username) == ToLower(form.username) ==> form.id == Some(u.id) by {
        forall u | u in users && ToLower(u.username) == ToLower(form.username)
          ensures form.id == Some(u.id)
        {
          var j :| 0 <= j < |users| && users[j] == u;
          assert !ClashesWith(users[j], form);
        }
      }
      Success(SavedStaff(form, grid))
  }

  /** Under a stored domain with a capital letter, the form as written refuses every complete
      form at the domain check, whatever username is typed. */
  lemma CapitalDomainRefusesStaff(form: StaffForm, editing: bool, grid: seq<Assignment>, users: seq<User>,
                                  domain: string, k: nat)
    requires k < |domain| && IsUpper(domain[k])
    requires form.name != "" && form.username != "" && (editing || form.password != "")
    ensures SubmitStaff(form, editing, grid, users, domain, AsWritten) == Failure(OutsideDomain)
  {
    CapitalInDomainRefusesAll(form.username, domain, k);
  }

  /** When the stored domain has no capital letter the form as written and its fix decide every
      submission alike. */
  lemma StaffRulesAgree(form: StaffForm, editing: bool, grid: seq<Assignment>, users: seq<User>, domain: string)
    requires LowerOnly(domain)
    ensures SubmitStaff(form, editing, grid, users, domain, AsWritten)
            == SubmitStaff(form, editing, grid, users, domain, CaseBlind)
  {
    RulesAgreeOnLowerDomain(form.username, domain);
  }

  /** A complete form for a new username, with nobody else on record, is accepted exactly when
      the domain check admits the username. */
  lemma FirstStaffAccepted(form: StaffForm, editing: bool, grid: seq<Assignment>, domain: string, rule: DomainRule)
    requires form.name != "" && form.username != "" && (editing || form.password != "")
    ensures SubmitStaff(form, editing, grid, [], domain, rule).Success? <==> Admits(rule, form.username, domain)
  {
  }

  /** A new teacher typed exactly as the stored domain "School.ac.ke" reads, whatever the local
      part: refused as written, accepted by the fix. */
  lemma SchoolStaffRefused(local: string)
    ensures var form := StaffForm(None, "Ann", local + "@School.ac.ke", "pw");
            && SubmitStaff(form, false, [], [], "School.ac.ke", AsWritten) == Failure(OutsideDomain)
            && SubmitStaff(form, false, [], [], "School.ac.ke", CaseBlind).Success?
  {
    var form := StaffForm(None, "Ann", local + "@School.ac.ke", "pw");
    CapitalDomainRefusesStaff(form, false, [], [], "School.ac.ke", 0);
    SchoolAddressTyped(local);
    FirstStaffAccepted(form, false, [], "School.ac.ke", CaseBlind);
  }

  /** Usernames are distinct ignoring case. */
  predicate UniqueUsernames(users: seq<User>) {
    forall i, j :: 0 <= i < j < |users| ==> ToLower(users[i].username) != ToLower(users[j].username)
  }

  /** An accepted form, stored in place of the user with its id (or added when there is none),
      keeps usernames distinct ignoring case. */
  lemma AcceptedKeepsUsernamesUnique(form: StaffForm, editing: bool, grid: seq<Assignment>, users: seq<User>,
                                     domain: string, rule: DomainRule, stored: User, i: int)
    requires UniqueUsernames(users) && UniqueUserIds(users)
    requires SubmitStaff(form, editing, grid, users, domain, rule).Success?
    requires stored.username == form.username
    requires -1 <= i < |users|
    requires i >= 0 ==> Some(users[i].id) == form.id
    requires i == -1 ==> forall u :: u in users ==> Some(u.id) != form.id
    ensures UniqueUsernames(if i >= 0 then users[i := stored] else users + [stored])
  {
    var after := if i >= 0 then users[i := stored] else users + [stored];
    forall a, b | 0 <= a < b < |after|
      ensures ToLower(after[a].username) != ToLower(after[b].username)
    {
      var k := if i >= 0 then i else |users|;
      if a != k && b != k {
        assert after[a] == users[a] && after[b] == users[b];
      } else {
        var o := if a == k then b else a;
        assert after[o] == users[o] && users[o] in users;
        assert Some(users[o].id) != form.id by {
          if i >= 0 {
            assert o != i;
          }
        }
      }
    }
  }
}

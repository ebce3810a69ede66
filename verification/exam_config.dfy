/** The term and exam-session editor: deleting terms and sessions, the year and weight
    inputs, the checks run before the configuration is saved, and the configuration the
    application ships with. */
module ExamConfig {
  import opened Wrappers
  import opened Collections
  import opened Text
  import opened Types

  // ---------------------------------------------------------------------------
  // editing

  function NotTerm(termId: string): Term -> bool {
    (t: Term) => t.id != termId
  }

  function NotOfTerm(termId: string): ExamSession -> bool {
    (s: ExamSession) => s.termId != termId
  }

  /** Every session belongs to one of the terms. */
  ghost predicate SessionsBelong(terms: seq<Term>, sessions: seq<ExamSession>) {
    forall s :: s in sessions ==> exists t :: t in terms && t.id == s.termId
  }

  /** Deleting a term removes it and every session of it; the rest keep their order. */
  function DeleteTerm(terms: seq<Term>, sessions: seq<ExamSession>, termId: string): (r: (seq<Term>, seq<ExamSession>))
    ensures forall t :: t in r.0 <==> t in terms && t.id != termId
    ensures forall s :: s in r.1 <==> s in sessions && s.termId != termId
  {
    (Filter(NotTerm(termId), terms), Filter(NotOfTerm(termId), sessions))
  }

  /** Deleting a term leaves no session without its term. */
  lemma DeleteTermKeepsSessionsBelonging(terms: seq<Term>, sessions: seq<ExamSession>, termId: string)
    requires SessionsBelong(terms, sessions)
    ensures var r := DeleteTerm(terms, sessions, termId);
            SessionsBelong(r.0, r.1)
  {
    var r := DeleteTerm(terms, sessions, termId);
    forall s | s in r.1
      ensures exists t :: t in r.0 && t.id == s.termId
    {
      var t :| t in terms && t.id == s.termId;
      assert t in r.0;
    }
  }

  function NotSession(sessionId: string): ExamSession -> bool {
    (s: ExamSession) => s.id != sessionId
  }

  function DeleteSession(sessions: seq<ExamSession>, sessionId: string): (r: seq<ExamSession>)
    ensures forall s :: s in r <==> s in sessions && s.id != sessionId
  {
    Filter(NotSession(sessionId), sessions)
  }

  /** The year typed for a term: its leading integer, 0 when there is none or it is 0. */
  function YearInput(text: string): (r: int)
    ensures ParseInt(text).None? ==> r == 0
    ensures ParseInt(text).Some? ==> r == ParseInt(text).value
  {
    match ParseInt(text)
    case None => 0
    case Some(v) => v
  }

  /** The weight typed for a session: its leading integer clamped to 0..100, 0 when there is
      none. */
  function WeightInput(text: string): (r: nat)
    ensures r <= 100
    ensures ParseInt(text).None? ==> r == 0
    ensures ParseInt(text).Some? && 0 <= ParseInt(text).value <= 100 ==> r == ParseInt(text).value
    ensures ParseInt(text).Some? && ParseInt(text).value > 100 ==> r == 100
    ensures ParseInt(text).Some? && ParseInt(text).value < 0 ==> r == 0
  {
    match ParseInt(text)
    case None => 0
    case Some(v) => if v < 0 then 0 else if v > 100 then 100 else v
  }

  /** Every weight is a percentage. */
  predicate WeightsInRange(sessions: seq<ExamSession>) {
    forall i :: 0 <= i < |sessions| ==> sessions[i].weight <= 100
  }

  function SetWeight(sessionId: string, text: string): ExamSession -> ExamSession {
    (s: ExamSession) => if s.id == sessionId then s.(weight := WeightInput(text)) else s
  }

  /** Typing a weight changes only the weight of the sessions with that id. */
  function ChangeWeight(sessions: seq<ExamSession>, sessionId: string, text: string): (r: seq<ExamSession>)
    ensures |r| == |sessions|
    ensures forall i :: 0 <= i < |r| ==> r[i].id == sessions[i].id && r[i].termId == sessions[i].termId && r[i].name == sessions[i].name
    ensures forall i :: 0 <= i < |r| && sessions[i].id != sessionId ==> r[i] == sessions[i]
    ensures WeightsInRange(sessions) ==> WeightsInRange(r)
  {
    Map(SetWeight(sessionId, text), sessions)
  }

  // ---------------------------------------------------------------------------
  // checks before saving

  /** Why a configuration is refused, naming the first offending term. */
  datatype ConfigError =
    | EmptyTermName
    | InvalidYear(termName: string)
    | WeightsNotHundred(termName: string, year: int, total: int)
    | EmptySessionName(termName: string, year: int)

  function WeightOf(s: ExamSession): int {
    s.weight
  }

  /** Sum of the weights of a term's sessions. */
  function TotalWeight(sessions: seq<ExamSession>, termId: string): int {
    Sum(Map(WeightOf, TermSessions(sessions, termId)))
  }

  function NamedSession(s: ExamSession): bool {
    !IsBlank(s.name)
  }

  /** The first problem with one term, if any, in the order the editor checks them. */
  function CheckTerm(t: Term, sessions: seq<ExamSession>): (r: Option<ConfigError>)
    ensures r.None? <==> TermAcceptable(t, sessions)
  {
    var own := TermSessions(sessions, t.id);
    if IsBlank(t.name) then Some(EmptyTermName)
    else if t.year < 2000 || t.year > 2100 then Some(InvalidYear(t.name))
    else if t.mode == WeightedAverage && |own| > 0 && TotalWeight(sessions, t.id) != 100 then
      Some(WeightsNotHundred(t.name, t.year, TotalWeight(sessions, t.id)))
    else if !(forall i :: 0 <= i < |own| ==> NamedSession(own[i])) then Some(EmptySessionName(t.name, t.year))
    else None
  }

  /** What saving demands of a term: a name, a year in 2000..2100, weights that sum to 100
      when the term is weighted and has sessions, and named sessions. */
  predicate TermAcceptable(t: Term, sessions: seq<ExamSession>) {
    && !IsBlank(t.name)
    && 2000 <= t.year <= 2100
    && (t.mode == WeightedAverage && |TermSessions(sessions, t.id)| > 0 ==> TotalWeight(sessions, t.id) == 100)
    && (forall s :: s in sessions && s.termId == t.id ==> !IsBlank(s.name))
  }

  function HasProblem(sessions: seq<ExamSession>): Term -> bool {
    (t: Term) => CheckTerm(t, sessions).Some?
  }

  /** The check run by Save: the first problem of the first offending term, or success. */
  function Validate(terms: seq<Term>, sessions: seq<ExamSession>): (r: Result<(), ConfigError>)
    ensures r.Success? <==> forall t :: t in terms ==> TermAcceptable(t, sessions)
    ensures r.Failure? ==> exists i :: 0 <= i < |terms| && CheckTerm(terms[i], sessions) == Some(r.error)
                              && forall j :: 0 <= j < i ==> TermAcceptable(terms[j], sessions)
  {
    ValidateAccepts(terms, sessions);
    ValidateNamesFirst(terms, sessions);
    FirstError(terms, sessions)
  }

  /** The error of the first term with a problem. */
  function FirstError(terms: seq<Term>, sessions: seq<ExamSession>): Result<(), ConfigError> {
    match FindIndex(HasProblem(sessions), terms)
    case None => Success(())
    case Some(i) => Failure(CheckTerm(terms[i], sessions).value)
  }

  lemma ValidateAccepts(terms: seq<Term>, sessions: seq<ExamSession>)
    ensures FirstError(terms, sessions).Success? <==> forall t :: t in terms ==> TermAcceptable(t, sessions)
  {
    match FindIndex(HasProblem(sessions), terms)
    case None =>
      NoProblemAcceptable(terms, sessions);
    case Some(i) =>
      FirstProblem(terms, sessions, i);
  }

  lemma ValidateNamesFirst(terms: seq<Term>, sessions: seq<ExamSession>)
    ensures var r := FirstError(terms, sessions);
            r.Failure? ==> exists i :: 0 <= i < |terms| && CheckTerm(terms[i], sessions) == Some(r.error)
                              && forall j :: 0 <= j < i ==> TermAcceptable(terms[j], sessions)
  {
    match FindIndex(HasProblem(sessions), terms)
    case None =>
    case Some(i) =>
      FirstProblem(terms, sessions, i);
  }

  lemma NoProblemAcceptable(terms: seq<Term>, sessions: seq<ExamSession>)
    requires FindIndex(HasProblem(sessions), terms).None?
    ensures forall t :: t in terms ==> TermAcceptable(t, sessions)
  {
    forall t | t in terms
      ensures TermAcceptable(t, sessions)
    {
      var k :| 0 <= k < |terms| && terms[k] == t;
      assert !HasProblem(sessions)(terms[k]);
    }
  }

  lemma FirstProblem(terms: seq<Term>, sessions: seq<ExamSession>, i: nat)
    requires FindIndex(HasProblem(sessions), terms) == Some(i)
    ensures i < |terms| && terms[i] in terms
    ensures CheckTerm(terms[i], sessions).Some? && !TermAcceptable(terms[i], sessions)
    ensures forall j :: 0 <= j < i ==> TermAcceptable(terms[j], sessions)
  {
    forall j | 0 <= j < i
      ensures TermAcceptable(terms[j], sessions)
    {
      assert !HasProblem(sessions)(terms[j]);
    }
  }

  // ---------------------------------------------------------------------------
  // the shipped configuration

  const MockTerms: seq<Term> := [
    Term("TERM01", "Term 1", 2025, WeightedAverage),
    Term("TERM02", "Term 2", 2025, WeightedAverage),
    Term("TERM03", "Term 3", 2025, WeightedAverage)
  ]

  const MockSessions: seq<ExamSession> := [
    ExamSession("ES001", "TERM01", "Term 1 CAT", 30),
    ExamSession("ES002", "TERM01", "Term 1 EndTerm", 70),
    ExamSession("ES003", "TERM02", "Term 2 CAT", 30),
    ExamSession("ES004", "TERM02", "Term 2 EndTerm", 70),
    ExamSession("ES005", "TERM03", "Term 3 CAT", 30),
    ExamSession("ES006", "TERM03", "Term 3 EndTerm", 70)
  ]

  /** A name starting with a letter is not blank. */
  lemma LetterNotBlank(s: string)
    requires |s| > 0 && 'A' <= s[0] <= 'Z'
    ensures !IsBlank(s)
  {
    BlankIffAllSpace(s);
  }

  /** The shipped terms and sessions pass the editor's checks: each term's weights (30 and 70)
      sum to 100, every session belongs to a term, and session ids are distinct. */
  lemma MockConfigAccepted()
    ensures Validate(MockTerms, MockSessions).Success?
    ensures SessionsBelong(MockTerms, MockSessions)
    ensures DistinctSessionIds(MockSessions)
  {
    MockTermsAcceptable();
    MockSessionsBelong();
    MockIdsDistinct();
  }

  lemma MockTermsAcceptable()
    ensures forall t :: t in MockTerms ==> TermAcceptable(t, MockSessions)
  {
    forall k | 0 <= k < |MockTerms|
      ensures TermAcceptable(MockTerms[k], MockSessions)
    {
      MockTermAcceptable(k);
    }
  }

  lemma MockSessionsBelong()
    ensures SessionsBelong(MockTerms, MockSessions)
  {
    forall j | 0 <= j < |MockSessions|
      ensures exists t :: t in MockTerms && t.id == MockSessions[j].termId
    {
      MockOwnership(j, j / 2);
      assert MockTerms[j / 2] in MockTerms;
    }
  }

  lemma MockIdsDistinct()
    ensures DistinctSessionIds(MockSessions)
  {
    forall i, j | 0 <= i < |MockSessions| && 0 <= j < |MockSessions| && MockSessions[i].id == MockSessions[j].id
      ensures MockSessions[i] == MockSessions[j]
    {
      MockSessionIds(i, j);
    }
  }

  lemma MockSessionIds(i: nat, j: nat)
    requires i < 6 && j < 6
    ensures MockSessions[i].id == MockSessions[j].id ==> i == j
  {
    var ids := ["ES001", "ES002", "ES003", "ES004", "ES005", "ES006"];
    assert MockSessions[i].id == ids[i] && MockSessions[j].id == ids[j];
    assert ids[0][4] == '1' && ids[1][4] == '2' && ids[2][4] == '3';
    assert ids[3][4] == '4' && ids[4][4] == '5' && ids[5][4] == '6';
    if i != j {
      assert ids[i][4] != ids[j][4];
    }
  }

  lemma MockTermAcceptable(k: nat)
    requires k < 3
    ensures TermAcceptable(MockTerms[k], MockSessions)
  {
    var t := MockTerms[k];
    assert t.name[0] == 'T' && t.year == 2025 && t.mode == WeightedAverage;
    LetterNotBlank(t.name);
    OwnSessions(k);
    assert MockSessions[2 * k].weight == 30 && MockSessions[2 * k + 1].weight == 70;
    MockSessionsNamed();
    AcceptableFromPair(t, MockSessions, MockSessions[2 * k], MockSessions[2 * k + 1]);
  }

  /** A term whose sessions are one pair with weights summing to 100 passes when its name,
      its year and every session name do. */
  lemma AcceptableFromPair(t: Term, sessions: seq<ExamSession>, a: ExamSession, b: ExamSession)
    requires TermSessions(sessions, t.id) == [a, b] && a.weight + b.weight == 100
    requires !IsBlank(t.name) && 2000 <= t.year <= 2100
    requires forall s :: s in sessions && s.termId == t.id ==> !IsBlank(s.name)
    ensures TermAcceptable(t, sessions)
  {
    PairWeight(a, b);
    assert TotalWeight(sessions, t.id) == 100;
  }

  lemma PairWeight(a: ExamSession, b: ExamSession)
    ensures Sum(Map(WeightOf, [a, b])) == a.weight + b.weight
  {
    var w := Map(WeightOf, [a, b]);
    assert w == [a.weight, b.weight];
    assert w[1..] == [b.weight] && w[1..][1..] == [];
    assert Sum(w[1..][1..]) == 0;
    assert Sum(w[1..]) == b.weight;
  }

  lemma MockSessionsNamed()
    ensures forall s :: s in MockSessions ==> !IsBlank(s.name)
  {
    forall j | 0 <= j < |MockSessions|
      ensures !IsBlank(MockSessions[j].name)
    {
      MockSessionNamed(j);
    }
  }

  lemma MockSessionNamed(j: nat)
    requires j < 6
    ensures !IsBlank(MockSessions[j].name)
  {
    assert MockSessions[j].name[0] == 'T';
    LetterNotBlank(MockSessions[j].name);
  }

  /** Session `j` of the shipped configuration belongs to term `j / 2`, and to no other. */
  lemma MockOwnership(j: nat, k: nat)
    requires j < 6 && k < 3
    ensures MockSessions[j].termId == MockTerms[k].id <==> j / 2 == k
  {
    var ids := ["TERM01", "TERM02", "TERM03"];
    assert MockTerms[k].id == ids[k];
    assert MockSessions[j].termId == ids[j / 2];
    assert ids[0][5] == '1' && ids[1][5] == '2' && ids[2][5] == '3';
    if j / 2 != k {
      assert ids[j / 2][5] != ids[k][5];
    }
  }

  lemma OwnSessions(k: nat)
    requires k < 3
    ensures TermSessions(MockSessions, MockTerms[k].id) == [MockSessions[2 * k], MockSessions[2 * k + 1]]
  {
    var p := (e: ExamSession) => e.termId == MockTerms[k].id;
    forall j | 0 <= j < 6
      ensures p(MockSessions[j]) <==> j == 2 * k || j == 2 * k + 1
    {
      MockOwnership(j, k);
    }
    FilterPair(p, MockSessions, k);
  }

  /** Filtering six elements of which exactly the pair `2k`, `2k + 1` passes. */
  lemma FilterPair<T>(p: T -> bool, s: seq<T>, k: nat)
    requires |s| == 6 && k < 3
    requires forall j :: 0 <= j < 6 ==> (p(s[j]) <==> j == 2 * k || j == 2 * k + 1)
    ensures Filter(p, s) == [s[2 * k], s[2 * k + 1]]
  {
    FilterNoneFrom(p, s, 2 * k + 2);
    FilterStep(p, s, 2 * k + 1);
    FilterStep(p, s, 2 * k);
    FilterSkip(p, s, 2 * k);
  }
}

/** The merit list page's own logic: splitting the term-on-term performance changes into the
    students who improved and those who dropped, each list ordered by the chosen key, and the
    terms offered for comparison with the displayed term. */
module MeritPage {
  import opened Wrappers
  import opened Collections
  import opened Sorting
  import opened Text
  import opened Types
  import opened Cohort

  /** The column a list of changes is sorted on. */
  datatype SortKey = ByChange | ByName | ByAdmission

  /** Larger change first: the improved list's order on changes. */
  predicate MoreChange(a: Change, b: Change) {
    a.meanPointsChange > b.meanPointsChange
  }

  /** Smaller change first: the dropped list's order, so the largest drop leads. */
  predicate LessChange(a: Change, b: Change) {
    a.meanPointsChange < b.meanPointsChange
  }

  predicate NameFirst(a: Change, b: Change) {
    StrLess(a.student.name, b.student.name)
  }

  predicate AdmissionFirst(a: Change, b: Change) {
    NumericLess(a.student.admissionNumber, b.student.admissionNumber)
  }

  /** The order for `key`; `change` stands for `descending` on the improved list and ascending on
      the dropped list. */
  function OrderFor(key: SortKey, descending: bool): (Change, Change) -> bool {
    match key
    case ByName => NameFirst
    case ByAdmission => AdmissionFirst
    case ByChange => if descending then MoreChange else LessChange
  }

  lemma OrdersStrict(key: SortKey, descending: bool)
    ensures StrictOrder(OrderFor(key, descending))
  {
    match key
    case ByName =>
      forall a: Change ensures !NameFirst(a, a) {
        StrLessIrreflexive(a.student.name);
      }
      forall a: Change, b: Change, c: Change | NameFirst(a, b) && NameFirst(b, c) ensures NameFirst(a, c) {
        StrLessTransitive(a.student.name, b.student.name, c.student.name);
      }
    case ByAdmission =>
      forall a: Change ensures !AdmissionFirst(a, a) {
        NumericLessIrreflexive(a.student.admissionNumber);
      }
      forall a: Change, b: Change, c: Change | AdmissionFirst(a, b) && AdmissionFirst(b, c) ensures AdmissionFirst(a, c) {
        NumericLessTransitive(a.student.admissionNumber, b.student.admissionNumber, c.student.admissionNumber);
      }
    case ByChange =>
  }

  function Improving(c: Change): bool {
    c.meanPointsChange > 0.0
  }

  function Dropping(c: Change): bool {
    c.meanPointsChange < 0.0
  }

  /** The entries of `changes` passing `keep`, ordered by `key`. */
  function SortedPart(changes: seq<Change>, keep: Change -> bool, key: SortKey, descending: bool): (r: seq<Change>)
    ensures multiset(r) == multiset(Filter(keep, changes))
    ensures forall c :: c in r <==> c in changes && keep(c)
    ensures SortedBy(r, OrderFor(key, descending))
  {
    var part := Filter(keep, changes);
    var r := SortBy(part, OrderFor(key, descending));
    OrdersStrict(key, descending);
    SortBySorted(part, OrderFor(key, descending));
    assert forall c :: c in r <==> c in multiset(part);
    r
  }

  /** The students who improved: exactly the entries with a positive change, ordered by `key`;
      by change, the largest gain first. */
  function Improved(changes: seq<Change>, key: SortKey): (r: seq<Change>)
    ensures forall c :: c in r <==> c in changes && c.meanPointsChange > 0.0
    ensures key == ByChange ==>
              forall i, j :: 0 <= i < j < |r| ==> r[i].meanPointsChange >= r[j].meanPointsChange
    ensures SortedBy(r, OrderFor(key, true))
  {
    SortedPart(changes, Improving, key, true)
  }

  /** The students who dropped: exactly the entries with a negative change, ordered by `key`;
      by change, the largest drop first. */
  function Dropped(changes: seq<Change>, key: SortKey): (r: seq<Change>)
    ensures forall c :: c in r <==> c in changes && c.meanPointsChange < 0.0
    ensures key == ByChange ==>
              forall i, j :: 0 <= i < j < |r| ==> r[i].meanPointsChange <= r[j].meanPointsChange
    ensures SortedBy(r, OrderFor(key, false))
  {
    SortedPart(changes, Dropping, key, false)
  }

  /** Every change with a non-zero difference is in exactly one of the two lists, whatever the
      sort keys; an unchanged student is in neither, and together the lists hold every entry
      with a non-zero change once per occurrence. */
  lemma ImprovedDroppedPartition(changes: seq<Change>, improvedKey: SortKey, droppedKey: SortKey)
    ensures forall c :: c in changes ==>
              ((c in Improved(changes, improvedKey) || c in Dropped(changes, droppedKey)) <==> c.meanPointsChange != 0.0)
    ensures forall c :: !(c in Improved(changes, improvedKey) && c in Dropped(changes, droppedKey))
    ensures multiset(Improved(changes, improvedKey)) + multiset(Dropped(changes, droppedKey))
            == multiset(Filter((c: Change) => c.meanPointsChange != 0.0, changes))
  {
    SplitCounts(changes);
  }

  lemma {:induction false} SplitCounts(changes: seq<Change>)
    ensures multiset(Filter(Improving, changes)) + multiset(Filter(Dropping, changes))
            == multiset(Filter((c: Change) => c.meanPointsChange != 0.0, changes))
  {
    if |changes| > 0 {
      SplitCounts(changes[1..]);
      FilterStep(Improving, changes, 0);
      FilterStep(Dropping, changes, 0);
      FilterStep((c: Change) => c.meanPointsChange != 0.0, changes, 0);
      assert changes[0..] == changes;
    }
  }

  // ---------------------------------------------------------------------------
  // comparison terms

  /** `a` is strictly earlier than `b`: an earlier year, or the same year and a smaller term
      number (the second word of the name read as a number; a name without one compares as
      neither earlier nor later). */
  predicate Earlier(a: Term, b: Term) {
    a.year < b.year
    || (a.year == b.year && TermNumber(a.name).Some? && TermNumber(b.name).Some?
        && TermNumber(a.name).value < TermNumber(b.name).value)
  }

  /** The listing order: later year first, then larger term number. */
  predicate MoreRecent(a: Term, b: Term) {
    Earlier(b, a)
  }

  lemma RecencyStrict()
    ensures StrictOrder(MoreRecent)
  {
  }

  /** The terms offered for comparison: none without a displayed term; otherwise exactly the
      terms earlier than it, most recent first. */
  function ComparisonTerms(terms: seq<Term>, current: Option<Term>): (r: seq<Term>)
    ensures current.None? ==> r == []
    ensures current.Some? ==> forall t :: t in r <==> t in terms && Earlier(t, current.value)
    ensures SortedBy(r, MoreRecent)
  {
    match current
    case None => []
    case Some(cur) =>
      var earlier := Filter((t: Term) => Earlier(t, cur), terms);
      var r := SortBy(earlier, MoreRecent);
      RecencyStrict();
      SortBySorted(earlier, MoreRecent);
      assert forall t :: t in r <==> t in multiset(earlier);
      r
  }

  /** The displayed term is never offered, nor any term of the same year and term number. */
  lemma CurrentNeverOffered(terms: seq<Term>, current: Term, t: Term)
    requires t.year == current.year && TermNumber(t.name) == TermNumber(current.name)
    ensures t !in ComparisonTerms(terms, Some(current))
  {
  }

  /** Everything offered comes before the displayed term in a performance history. */
  lemma OfferedPrecedeCurrent(terms: seq<Term>, current: Term, t: Term, p: HistoryPoint, q: HistoryPoint)
    requires t in ComparisonTerms(terms, Some(current))
    requires p.year == t.year && p.termName == t.name
    requires q.year == current.year && q.termName == current.name
    ensures HistoryBefore(p, q)
  {
  }
}

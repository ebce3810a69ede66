/** Ordering and ranking of students.

    Every ranking in the engine orders by mean points (higher first) and then by total marks
    (higher first, a missing total after any number). The merit list and the broadsheet break
    remaining ties by name and give "competition" ranks (1, 1, 3); the in-report class rank and
    the per-subject rank assign ranks with a running counter instead. */
module Ranking {
  import opened Wrappers
  import opened Collections
  import opened Sorting
  import opened Text

  /** What a student is ranked on. */
  datatype Standing = Standing(points: real, total: Option<int>)

  /** `a` is ahead of `b` on total marks: a number beats a missing total, a larger number a
      smaller one. */
  predicate TotalAhead(a: Option<int>, b: Option<int>) {
    a.Some? && (b.None? || a.value > b.value)
  }

  /** `a` ranks strictly above `b`. */
  predicate Better(a: Standing, b: Standing) {
    a.points > b.points || (a.points == b.points && TotalAhead(a.total, b.total))
  }

  /** `Better` is a strict order in which two standings are incomparable only when equal. */
  lemma BetterOrder()
    ensures StrictOrder(Better)
    ensures forall a, b :: Better(a, b) || Better(b, a) || a == b
  {
  }

  /** A merit-list or broadsheet row as the comparator sees it. */
  datatype Candidate = Candidate(standing: Standing, name: string)

  /** `localeCompare` on names, as a sign. */
  function NameCompare(a: string, b: string): (r: int)
    ensures r < 0 <==> StrLess(a, b)
    ensures r == 0 <==> a == b
    ensures r > 0 <==> StrLess(b, a)
  {
    StrLessIrreflexive(a);
    StrLessTotal(a, b);
    StrLessAsymmetric(a, b);
    if StrLess(a, b) then -1
    else if a == b then 0
    else 1
  }

  /** The comparator shared by the merit list and the broadsheet: negative when `a` goes first. */
  function Compare(a: Candidate, b: Candidate): real {
    var pa, pb := a.standing.points, b.standing.points;
    var ta, tb := a.standing.total, b.standing.total;
    if pb != pa then pb - pa
    else if tb.Some? && ta.Some? && tb.value != ta.value then (tb.value - ta.value) as real
    else if tb.Some? && ta.None? then 1.0
    else if ta.Some? && tb.None? then -1.0
    else NameCompare(a.name, b.name) as real
  }

  /** Strict precedence: a better standing, or the same standing and an earlier name. */
  predicate Ahead(a: Candidate, b: Candidate) {
    Better(a.standing, b.standing) || (a.standing == b.standing && StrLess(a.name, b.name))
  }

  /** The comparator is consistent: it puts `a` first exactly when `a` is ahead, reports a tie
      exactly for identical candidates, and is antisymmetric. */
  lemma CompareMeansAhead(a: Candidate, b: Candidate)
    ensures Compare(a, b) < 0.0 <==> Ahead(a, b)
    ensures Compare(a, b) == 0.0 <==> a == b
    ensures Compare(a, b) > 0.0 <==> Ahead(b, a)
  {
  }

  lemma AheadOrder()
    ensures StrictOrder(Ahead)
  {
    forall a: Candidate
      ensures !Ahead(a, a)
    {
      StrLessIrreflexive(a.name);
    }
    forall a: Candidate, b: Candidate, c: Candidate | Ahead(a, b) && Ahead(b, c)
      ensures Ahead(a, c)
    {
      if a.standing == b.standing && b.standing == c.standing {
        StrLessTransitive(a.name, b.name, c.name);
      }
    }
  }

  /** Number of standings in `s` strictly better than `x`. */
  function CountBetter(s: seq<Standing>, x: Standing): nat {
    Count(BetterThan(x), s)
  }

  /** The test "strictly better than `x`". */
  function BetterThan(x: Standing): Standing -> bool {
    (y: Standing) => Better(y, x)
  }

  /** Ranks assigned by the merit list and broadsheet loop: the first row gets 1; a row whose
      standing equals its predecessor's shares its rank; any other row gets its position. */
  function CompetitionRanks(s: seq<Standing>): (r: seq<nat>)
    ensures |r| == |s|
    ensures forall i :: 0 <= i < |s| ==> 1 <= r[i] <= i + 1
  {
    if |s| == 0 then []
    else
      var prev := CompetitionRanks(s[..|s| - 1]);
      var i := |s| - 1;
      prev + [if i == 0 then 1 else if s[i] == s[i - 1] then prev[i - 1] else i + 1]
  }

  /** Under the order the rows are sorted in, the loop computes standard competition ranking:
      one more than the number of strictly better rows. */
  lemma {:induction false} CompetitionRanksCount(s: seq<Standing>)
    requires SortedBy(s, Better)
    ensures forall i :: 0 <= i < |s| ==> CompetitionRanks(s)[i] == 1 + CountBetter(s, s[i])
  {
    BetterOrder();
    if |s| > 0 {
      var n := |s| - 1;
      var init := s[..n];
      assert s == init + [s[n]];
      CompetitionRanksCount(init);
      var r := CompetitionRanks(s);
      forall i | 0 <= i < |s|
        ensures r[i] == 1 + CountBetter(s, s[i])
      {
        var better := BetterThan(s[i]);
        CountAppend(better, init, [s[n]]);
        assert Count(better, [s[n]]) == (if Better(s[n], s[i]) then 1 else 0);
        if i < n {
          assert init[i] == s[i];
        } else if n > 0 {
          if s[n] != s[n - 1] {
            assert Better(s[n - 1], s[n]);
            forall j | 0 <= j < |init|
              ensures better(init[j])
            {
              assert init[j] == s[j];
              if j < n - 1 {
                assert Better(s[j], s[n - 1]) || s[j] == s[n - 1];
              }
            }
            CountAll(better, init);
          } else {
            assert init[n - 1] == s[n - 1];
          }
        } else {
          assert init == [];
        }
      }
    }
  }

  /** Competition ranks of sorted standings depend only on the standing: rows share a rank
      exactly when their standings are equal. */
  lemma TiesShareRanks(s: seq<Standing>, i: nat, j: nat)
    requires SortedBy(s, Better)
    requires i < |s| && j < |s|
    ensures CompetitionRanks(s)[i] == CompetitionRanks(s)[j] <==> s[i] == s[j]
  {
    CompetitionRanksCount(s);
    BetterOrder();
    if s[i] != s[j] {
      if Better(s[i], s[j]) {
        BetterCountsMore(s, s[i], s[j], i);
      } else {
        BetterCountsMore(s, s[j], s[i], j);
      }
    }
  }

  /** A strictly worse standing has strictly more rows above it. */
  lemma BetterCountsMore(s: seq<Standing>, x: Standing, y: Standing, k: nat)
    requires Better(x, y) && k < |s| && s[k] == x
    ensures CountBetter(s, x) < CountBetter(s, y)
  {
    BetterOrder();
    CountMonotone(s, x, y, k);
  }

  lemma {:induction false} CountMonotone(s: seq<Standing>, x: Standing, y: Standing, k: nat)
    requires Better(x, y) && k < |s| && s[k] == x
    ensures CountBetter(s, x) < CountBetter(s, y)
    decreases |s|
  {
    BetterOrder();
    assert Better(s[0], x) ==> Better(s[0], y);
    assert !Better(x, x);
    if k == 0 {
      CountWeaklyMonotone(s[1..], x, y);
    } else {
      CountMonotone(s[1..], x, y, k - 1);
    }
  }

  lemma {:induction false} CountWeaklyMonotone(s: seq<Standing>, x: Standing, y: Standing)
    requires Better(x, y)
    ensures CountBetter(s, x) <= CountBetter(s, y)
  {
    BetterOrder();
    if |s| > 0 {
      assert Better(s[0], x) ==> Better(s[0], y);
      CountWeaklyMonotone(s[1..], x, y);
    }
  }

  /** The running counter's test: `a`, placed after `b`, has fewer points or (both totals being
      numbers) a smaller total. */
  predicate DropsBelow(a: Standing, b: Standing) {
    a.points < b.points || (a.total.Some? && b.total.Some? && a.total.value < b.total.value)
  }

  /** Ranks assigned by the in-report and per-subject loops: the counter starts at 1 and jumps to
      the position whenever a row drops below its predecessor. */
  function RunningRanks(s: seq<Standing>): (r: seq<nat>)
    ensures |r| == |s|
    ensures forall i :: 0 <= i < |s| ==> 1 <= r[i] <= i + 1
  {
    if |s| == 0 then []
    else
      var prev := RunningRanks(s[..|s| - 1]);
      var i := |s| - 1;
      prev + [if i > 0 && DropsBelow(s[i], s[i - 1]) then i + 1 else if i == 0 then 1 else prev[i - 1]]
  }

  /** Either every total is a number or none is. */
  predicate UniformTotals(s: seq<Standing>) {
    (forall i :: 0 <= i < |s| ==> s[i].total.Some?) || (forall i :: 0 <= i < |s| ==> s[i].total.None?)
  }

  /** On sorted rows whose totals are uniformly present or absent, the running counter gives the
      same ranks as the competition loop. */
  lemma {:induction false} RunningIsCompetition(s: seq<Standing>)
    requires SortedBy(s, Better) && UniformTotals(s)
    ensures RunningRanks(s) == CompetitionRanks(s)
  {
    if |s| > 0 {
      var n := |s| - 1;
      SortedUniformPrefix(s);
      RunningIsCompetition(s[..n]);
      if n > 0 {
        DropIffDiffer(s[n], s[n - 1]);
      }
      RunningStep(s);
    }
  }

  lemma SortedUniformPrefix(s: seq<Standing>)
    requires |s| > 0 && SortedBy(s, Better) && UniformTotals(s)
    ensures SortedBy(s[..|s| - 1], Better) && UniformTotals(s[..|s| - 1])
    ensures |s| > 1 ==> !Better(s[|s| - 1], s[|s| - 2]) && (s[|s| - 1].total.Some? <==> s[|s| - 2].total.Some?)
  {
  }

  /** Between a row and its predecessor in sorted order, both totals present or both absent,
      dropping below is the same as differing. */
  lemma DropIffDiffer(a: Standing, b: Standing)
    requires !Better(a, b) && (a.total.Some? <==> b.total.Some?)
    ensures DropsBelow(a, b) <==> a != b
  {
  }

  /** The two loops agree on the last row once they agree on the rows before it. */
  lemma RunningStep(s: seq<Standing>)
    requires |s| > 0
    requires RunningRanks(s[..|s| - 1]) == CompetitionRanks(s[..|s| - 1])
    requires |s| > 1 ==> (DropsBelow(s[|s| - 1], s[|s| - 2]) <==> s[|s| - 1] != s[|s| - 2])
    ensures RunningRanks(s) == CompetitionRanks(s)
  {
  }

  /** The rank of the first row carrying `key`, if any, from ranks computed over `rows`. */
  function RankOfFirst<T>(rows: seq<T>, ranks: seq<nat>, isKey: T -> bool): (r: Option<nat>)
    requires |ranks| == |rows|
    ensures r.None? <==> forall i :: 0 <= i < |rows| ==> !isKey(rows[i])
    ensures r.Some? ==> exists i :: 0 <= i < |rows| && isKey(rows[i]) && r.value == ranks[i]
  {
    match FindIndex(isKey, rows)
    case None => None
    case Some(i) => Some(ranks[i])
  }
}

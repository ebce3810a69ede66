/** How one subject's per-session scores combine into a single term score.

    The engine repeats this computation in three places (the term summary, the student report
    and the mark sheet); `Combine` is the single reference definition, and each copy is proved
    equal to it in the module that models that copy. */
module SubjectScore {
  import opened Wrappers
  import opened Collections
  import opened Types

  /** One session's contribution: the stored score, if any, and the session's weight. */
  datatype Component = Component(score: Option<int>, weight: nat)

  /** The components of a subject for a student, one per session of the term, in order. */
  function Components(sessions: seq<ExamSession>, marks: seq<Mark>, studentId: string, subjectId: string): (r: seq<Component>)
    ensures |r| == |sessions|
    ensures forall i :: 0 <= i < |sessions| ==>
              r[i] == Component(ScoreOf(marks, studentId, subjectId, sessions[i].id), sessions[i].weight)
  {
    Map((e: ExamSession) => Component(ScoreOf(marks, studentId, subjectId, e.id), e.weight), sessions)
  }

  /** A component counts towards the average when it holds a score of at least 0. */
  predicate Counts(c: Component) {
    c.score.Some? && c.score.value >= 0
  }

  predicate NoneEntered(cs: seq<Component>) {
    forall i :: 0 <= i < |cs| ==> cs[i].score.None?
  }

  predicate AnyMalpractice(cs: seq<Component>) {
    exists i :: 0 <= i < |cs| && cs[i].score == Some(Malpractice)
  }

  /** Number of counting components. */
  function ValidCount(cs: seq<Component>): (n: nat)
    ensures n <= |cs|
    ensures n == 0 <==> forall i :: 0 <= i < |cs| ==> !Counts(cs[i])
  {
    if |cs| == 0 then 0
    else
      assert forall i :: 1 <= i < |cs| ==> cs[i] == cs[1..][i - 1];
      (if Counts(cs[0]) then 1 else 0) + ValidCount(cs[1..])
  }

  /** Sum of the counting scores. */
  function ValidSum(cs: seq<Component>): int {
    if |cs| == 0 then 0
    else (if Counts(cs[0]) then cs[0].score.value else 0) + ValidSum(cs[1..])
  }

  /** Sum of score times weight over the counting components. */
  function WeightedSum(cs: seq<Component>): int {
    if |cs| == 0 then 0
    else (if Counts(cs[0]) then cs[0].score.value * cs[0].weight else 0) + WeightedSum(cs[1..])
  }

  /** Sum of the weights of the counting components. */
  function WeightSum(cs: seq<Component>): int {
    if |cs| == 0 then 0
    else (if Counts(cs[0]) then cs[0].weight else 0) + WeightSum(cs[1..])
  }

  /** The unrounded term score of one subject: `None` when nothing is entered (or, in weighted
      mode, when every scored session weighs 0); a sentinel when only sentinels are entered;
      otherwise the plain or weighted mean of the non-negative scores. */
  function Combine(mode: CalcMode, cs: seq<Component>): (r: Option<real>)
    ensures r.None? <==> NoneEntered(cs) || (ValidCount(cs) > 0 && mode == WeightedAverage && WeightSum(cs) == 0)
    ensures !NoneEntered(cs) && ValidCount(cs) == 0 ==>
              r == Some(if AnyMalpractice(cs) then Malpractice as real else Absent as real)
    ensures r.Some? && ValidCount(cs) > 0 ==> r.value >= 0.0
  {
    if NoneEntered(cs) then None
    else if ValidCount(cs) == 0 then Some(if AnyMalpractice(cs) then Malpractice as real else Absent as real)
    else if mode == SimpleAverage then
      ValidSumNonNegative(cs);
      Some(ValidSum(cs) as real / ValidCount(cs) as real)
    else
      WeightedSumNonNegative(cs);
      if WeightSum(cs) > 0 then Some(WeightedSum(cs) as real / WeightSum(cs) as real)
      else
        assert mode == WeightedAverage && WeightSum(cs) == 0;
        None
  }

  lemma {:induction false} ValidSumNonNegative(cs: seq<Component>)
    ensures ValidSum(cs) >= 0
  {
    if |cs| > 0 {
      ValidSumNonNegative(cs[1..]);
    }
  }

  lemma {:induction false} WeightedSumNonNegative(cs: seq<Component>)
    ensures WeightedSum(cs) >= 0 && WeightSum(cs) >= 0
  {
    if |cs| > 0 {
      WeightedSumNonNegative(cs[1..]);
    }
  }

  /** Every counting score lies in `lo..hi`. */
  predicate ScoresWithin(cs: seq<Component>, lo: int, hi: int) {
    forall i :: 0 <= i < |cs| ==> Counts(cs[i]) ==> lo <= cs[i].score.value <= hi
  }

  lemma TailWithin(cs: seq<Component>, lo: int, hi: int)
    requires |cs| > 0 && ScoresWithin(cs, lo, hi)
    ensures ScoresWithin(cs[1..], lo, hi)
  {
    forall i | 0 <= i < |cs[1..]| && Counts(cs[1..][i])
      ensures lo <= cs[1..][i].score.value <= hi
    {
      assert cs[1..][i] == cs[i + 1];
    }
  }

  lemma {:induction false} CountSumWithin(cs: seq<Component>, lo: int, hi: int)
    requires ScoresWithin(cs, lo, hi)
    ensures ValidCount(cs) * lo <= ValidSum(cs) <= ValidCount(cs) * hi
  {
    if |cs| > 0 {
      TailWithin(cs, lo, hi);
      CountSumWithin(cs[1..], lo, hi);
      var k, x := if Counts(cs[0]) then 1 else 0, if Counts(cs[0]) then cs[0].score.value else 0;
      AddWithin(ValidCount(cs[1..]), ValidSum(cs[1..]), k, x, lo, hi);
    }
  }

  /** Adding `k` items worth `x` in total, each within `lo..hi`, keeps a sum of `c` items
      within `c * lo .. c * hi`. */
  lemma AddWithin(c: int, sum: int, k: int, x: int, lo: int, hi: int)
    requires c * lo <= sum <= c * hi
    requires k * lo <= x <= k * hi
    ensures (k + c) * lo <= x + sum <= (k + c) * hi
  {
    assert (k + c) * lo == k * lo + c * lo;
    assert (k + c) * hi == k * hi + c * hi;
  }

  lemma {:induction false} WeightedSumWithin(cs: seq<Component>, lo: int, hi: int)
    requires ScoresWithin(cs, lo, hi)
    ensures WeightSum(cs) * lo <= WeightedSum(cs) <= WeightSum(cs) * hi
  {
    if |cs| > 0 {
      TailWithin(cs, lo, hi);
      WeightedSumWithin(cs[1..], lo, hi);
      var w := if Counts(cs[0]) then cs[0].weight else 0;
      var x := if Counts(cs[0]) then cs[0].score.value * cs[0].weight else 0;
      if Counts(cs[0]) {
        ScaledWithin(cs[0].score.value, cs[0].weight, lo, hi);
      }
      AddWithin(WeightSum(cs[1..]), WeightedSum(cs[1..]), w, x, lo, hi);
    }
  }

  /** A score within `lo..hi` weighted by `w` lies within `w * lo .. w * hi`. */
  lemma ScaledWithin(s: int, w: nat, lo: int, hi: int)
    requires lo <= s <= hi
    ensures w * lo <= s * w <= w * hi
  {
    MulMonotone(w, lo, s);
    MulMonotone(w, s, hi);
    assert s * w == w * s;
  }

  lemma MulMonotone(w: nat, a: int, b: int)
    requires a <= b
    ensures w * a <= w * b
  {
    assert w * b - w * a == w * (b - a);
  }

  /** A numeric term score lies between the smallest and the largest counting score. */
  lemma CombineWithin(mode: CalcMode, cs: seq<Component>, lo: int, hi: int)
    requires ScoresWithin(cs, lo, hi)
    requires ValidCount(cs) > 0 && Combine(mode, cs).Some?
    ensures lo as real <= Combine(mode, cs).value <= hi as real
  {
    CountSumWithin(cs, lo, hi);
    WeightedSumWithin(cs, lo, hi);
    var r := Combine(mode, cs).value;
    var n, d := 0, 0;
    if mode == SimpleAverage {
      n, d := ValidSum(cs), ValidCount(cs);
    } else {
      n, d := WeightedSum(cs), WeightSum(cs);
    }
    assert r == n as real / d as real;
    assert d * lo <= n <= d * hi;
    RatioWithin(n, d, lo, hi);
  }

  lemma RatioWithin(n: int, d: int, lo: int, hi: int)
    requires d > 0 && d * lo <= n <= d * hi
    ensures lo as real <= n as real / d as real <= hi as real
  {
    var q := n as real / d as real;
    assert q * d as real == n as real;
    assert (d * lo) as real == lo as real * d as real && (d * hi) as real == hi as real * d as real;
    assert (q - lo as real) * d as real == (n - d * lo) as real;
    assert (hi as real - q) * d as real == (d * hi - n) as real;
    SignOfFactor(q - lo as real, d as real, (n - d * lo) as real);
    SignOfFactor(hi as real - q, d as real, (d * hi - n) as real);
  }

  /** Dividing by a positive number keeps the sign. */
  lemma SignOfFactor(x: real, b: real, y: real)
    requires b > 0.0 && x * b == y
    ensures y >= 0.0 ==> x >= 0.0
    ensures y < 0.0 ==> x < 0.0
  {
  }

  /** `Math.round`: the nearest integer, halves rounded up. */
  function Round(x: real): int {
    (x + 0.5).Floor
  }

  lemma RoundNearest(x: real)
    ensures Round(x) as real - 0.5 <= x < Round(x) as real + 0.5
  {
  }

  /** The floor of a quotient of whole numbers is Euclidean division. */
  lemma FloorDiv(a: int, b: int)
    requires b > 0
    ensures (a as real / b as real).Floor == a / b
  {
    var k, m := a / b, a % b;
    assert a == b * k + m && 0 <= m < b;
    var q := a as real / b as real;
    assert q * b as real == a as real;
    assert (b * k) as real == k as real * b as real;
    assert (q - k as real) * b as real == m as real;
    assert (q - k as real - 1.0) * b as real == (m - b) as real;
    SignOfFactor(q - k as real, b as real, m as real);
    SignOfFactor(q - k as real - 1.0, b as real, (m - b) as real);
    FloorOf(q, k);
  }

  /** Rounding a quotient of whole numbers is whole-number arithmetic: for `n >= 0` and
      `d > 0`, round(n / d) is (2n + d) div 2d. */
  lemma RoundRatio(n: int, d: int)
    requires n >= 0 && d > 0
    ensures Round(n as real / d as real) == (2 * n + d) / (2 * d)
  {
    var q := n as real / d as real;
    var h := (2 * n + d) as real / (2 * d) as real;
    assert q * d as real == n as real;
    assert h * (2 * d) as real == (2 * n + d) as real;
    assert (q + 0.5) * (2 * d) as real == (2 * n + d) as real;
    DivUnique(q + 0.5, h, (2 * d) as real);
    FloorDiv(2 * n + d, 2 * d);
  }

  lemma DivUnique(x: real, y: real, b: real)
    requires b > 0.0 && x * b == y * b
    ensures x == y
  {
    SignOfFactor(x - y, b, 0.0);
    SignOfFactor(y - x, b, 0.0);
  }

  lemma FloorOf(x: real, k: int)
    requires k as real <= x < k as real + 1.0
    ensures x.Floor == k
  {
  }

  /** A score rounded to a whole number stays within whole-number bounds. */
  lemma RoundWithin(x: real, lo: int, hi: int)
    requires lo as real <= x <= hi as real
    ensures lo <= Round(x) <= hi
  {
  }

  /** The score that is reported: numeric averages are rounded, sentinels pass through. */
  function FinalScore(u: Option<real>): (r: Option<int>)
    ensures r.None? <==> u.None?
    ensures u.Some? && u.value >= 0.0 ==> r.value as real - 0.5 <= u.value < r.value as real + 0.5
    ensures u.Some? && u.value < 0.0 ==> r.value as real <= u.value < r.value as real + 1.0
  {
    match u
    case None => None
    case Some(x) => if x >= 0.0 then Some(Round(x)) else Some(x.Floor)
  }

  /** The reported term score of a subject. */
  function TermScore(mode: CalcMode, cs: seq<Component>): (r: Option<int>)
    ensures r.None? <==> Combine(mode, cs).None?
    ensures ValidCount(cs) == 0 && !NoneEntered(cs) ==> r == Some(if AnyMalpractice(cs) then Malpractice else Absent)
  {
    FinalScore(Combine(mode, cs))
  }

  /** With counting scores in `lo..hi`, so is the reported score. */
  lemma TermScoreWithin(mode: CalcMode, cs: seq<Component>, lo: int, hi: int)
    requires ScoresWithin(cs, lo, hi)
    requires ValidCount(cs) > 0 && TermScore(mode, cs).Some?
    ensures lo <= TermScore(mode, cs).value <= hi
  {
    CombineWithin(mode, cs, lo, hi);
    RoundWithin(Combine(mode, cs).value, lo, hi);
  }

  /** Any reported score is a valid score when the entered ones are. */
  lemma TermScoreValid(mode: CalcMode, cs: seq<Component>)
    requires forall i :: 0 <= i < |cs| ==> cs[i].score.Some? ==> ValidScore(cs[i].score.value)
    ensures TermScore(mode, cs).Some? ==> ValidScore(TermScore(mode, cs).value)
  {
    if TermScore(mode, cs).Some? && ValidCount(cs) > 0 {
      TermScoreWithin(mode, cs, 0, 100);
    }
  }

  /** The simple average is the weighted average with equal weights. */
  lemma SimpleIsEqualWeights(cs: seq<Component>, w: nat)
    requires w > 0
    ensures Combine(SimpleAverage, cs) == Combine(WeightedAverage, Reweighted(cs, w))
  {
    EqualWeightSums(cs, w);
    var r := Reweighted(cs, w);
    assert NoneEntered(cs) <==> NoneEntered(r) by {
      assert forall i :: 0 <= i < |cs| ==> r[i].score == cs[i].score;
    }
    assert AnyMalpractice(cs) <==> AnyMalpractice(r) by {
      if AnyMalpractice(cs) {
        var i :| 0 <= i < |cs| && cs[i].score == Some(Malpractice);
        assert r[i].score == Some(Malpractice);
      }
      if AnyMalpractice(r) {
        var i :| 0 <= i < |r| && r[i].score == Some(Malpractice);
        assert cs[i].score == Some(Malpractice);
      }
    }
    if ValidCount(cs) > 0 {
      CancelFactor(ValidSum(cs), ValidCount(cs), w);
    }
  }

  lemma CancelFactor(n: int, c: int, w: int)
    requires c > 0 && w > 0
    ensures (n * w) as real / (c * w) as real == n as real / c as real
  {
    var x := (n * w) as real / (c * w) as real;
    var y := n as real / c as real;
    assert x * (c * w) as real == (n * w) as real;
    assert y * c as real == n as real;
    assert (c * w) as real == c as real * w as real && (n * w) as real == n as real * w as real;
    assert y * (c * w) as real == (y * c as real) * w as real;
    DivUnique(x, y, (c * w) as real);
  }

  /** The same scores with every weight set to `w`. */
  function Reweighted(cs: seq<Component>, w: nat): (r: seq<Component>)
    ensures |r| == |cs|
    ensures forall i :: 0 <= i < |cs| ==> r[i] == Component(cs[i].score, w)
  {
    if |cs| == 0 then [] else [Component(cs[0].score, w)] + Reweighted(cs[1..], w)
  }

  lemma EqualWeightSums(cs: seq<Component>, w: nat)
    ensures ValidCount(Reweighted(cs, w)) == ValidCount(cs)
    ensures WeightedSum(Reweighted(cs, w)) == ValidSum(cs) * w
    ensures WeightSum(Reweighted(cs, w)) == ValidCount(cs) * w
  {
    EqualWeightCount(cs, w);
    EqualWeightSum(cs, w);
    EqualWeightWeights(cs, w);
  }

  lemma ReweightedHead(cs: seq<Component>, w: nat)
    requires |cs| > 0
    ensures Reweighted(cs, w)[0] == Component(cs[0].score, w)
    ensures Reweighted(cs, w)[1..] == Reweighted(cs[1..], w)
  {
  }

  lemma {:induction false} EqualWeightCount(cs: seq<Component>, w: nat)
    ensures ValidCount(Reweighted(cs, w)) == ValidCount(cs)
  {
    if |cs| > 0 {
      ReweightedHead(cs, w);
      EqualWeightCount(cs[1..], w);
    }
  }

  lemma {:induction false} EqualWeightSum(cs: seq<Component>, w: nat)
    ensures WeightedSum(Reweighted(cs, w)) == ValidSum(cs) * w
  {
    if |cs| > 0 {
      ReweightedHead(cs, w);
      EqualWeightSum(cs[1..], w);
      var v := if Counts(cs[0]) then cs[0].score.value else 0;
      assert WeightedSum(Reweighted(cs, w)) == v * w + ValidSum(cs[1..]) * w;
      Distribute(v, ValidSum(cs[1..]), w);
    }
  }

  lemma {:induction false} EqualWeightWeights(cs: seq<Component>, w: nat)
    ensures WeightSum(Reweighted(cs, w)) == ValidCount(cs) * w
  {
    if |cs| > 0 {
      ReweightedHead(cs, w);
      EqualWeightWeights(cs[1..], w);
      var k := if Counts(cs[0]) then 1 else 0;
      assert WeightSum(Reweighted(cs, w)) == k * w + ValidCount(cs[1..]) * w;
      Distribute(k, ValidCount(cs[1..]), w);
    }
  }

  lemma Distribute(a: int, b: int, w: int)
    ensures a * w + b * w == (a + b) * w
  {
  }

  /** The two sessions of the configured terms: a missing CAT leaves the end-term exam alone,
      and 55 and 61 at weights 30 and 70 give 59.2, reported as 59. */
  lemma WorkedExamples()
    ensures TermScore(WeightedAverage, [Component(None, 30), Component(Some(80), 70)]) == Some(80)
    ensures TermScore(WeightedAverage, [Component(Some(55), 30), Component(Some(61), 70)]) == Some(59)
    ensures TermScore(SimpleAverage, [Component(Some(55), 30), Component(Some(61), 70)]) == Some(58)
    ensures TermScore(WeightedAverage, [Component(Some(Absent), 30), Component(Some(Malpractice), 70)]) == Some(Malpractice)
    ensures TermScore(WeightedAverage, [Component(Some(Absent), 30), Component(None, 70)]) == Some(Absent)
    ensures TermScore(WeightedAverage, [Component(Some(50), 0), Component(None, 70)]) == None
  {
    var a := [Component(None, 30), Component(Some(80), 70)];
    assert ValidCount(a) == 1 && WeightSum(a) == 70 && WeightedSum(a) == 5600;
    RoundRatio(5600, 70);
    var b := [Component(Some(55), 30), Component(Some(61), 70)];
    assert ValidCount(b) == 2 && WeightSum(b) == 100 && WeightedSum(b) == 5920 && ValidSum(b) == 116;
    RoundRatio(5920, 100);
    RoundRatio(116, 2);
    var c := [Component(Some(Absent), 30), Component(Some(Malpractice), 70)];
    assert ValidCount(c) == 0 && !NoneEntered(c) && c[1].score == Some(Malpractice);
    var d := [Component(Some(Absent), 30), Component(None, 70)];
    assert ValidCount(d) == 0 && !NoneEntered(d) && !AnyMalpractice(d);
    var e := [Component(Some(50), 0), Component(None, 70)];
    assert ValidCount(e) == 1 && WeightSum(e) == 0 && !NoneEntered(e);
  }

  /** The entered (non-null) values of a list of optional scores, in order. */
  function Present(xs: seq<Option<int>>): (r: seq<int>)
    ensures |r| <= |xs|
    ensures forall v :: v in r <==> Some(v) in xs
  {
    if |xs| == 0 then []
    else
      assert forall o :: o in xs <==> o == xs[0] || o in xs[1..];
      (match xs[0] case Some(v) => [v] case None => []) + Present(xs[1..])
  }

  /** The stored scores of the components. */
  function Scores(cs: seq<Component>): (r: seq<Option<int>>)
    ensures |r| == |cs| && forall i :: 0 <= i < |cs| ==> r[i] == cs[i].score
  {
    Map((c: Component) => c.score, cs)
  }

  /** Facts linking the list of entered scores to the reference predicates. */
  lemma EnteredFacts(cs: seq<Component>)
    ensures |Present(Scores(cs))| == 0 <==> NoneEntered(cs)
    ensures (exists v :: v in Present(Scores(cs)) && v >= 0) <==> ValidCount(cs) > 0
    ensures Malpractice in Present(Scores(cs)) <==> AnyMalpractice(cs)
  {
    EnteredAny(cs);
    EnteredCounting(cs);
    EnteredMalpractice(cs);
  }

  lemma EnteredAny(cs: seq<Component>)
    ensures |Present(Scores(cs))| == 0 <==> NoneEntered(cs)
  {
    var p := Present(Scores(cs));
    if |p| > 0 {
      assert p[0] in p;
      assert Some(p[0]) in Scores(cs);
      var i :| 0 <= i < |cs| && Scores(cs)[i] == Some(p[0]);
      assert cs[i].score.Some?;
    }
    if !NoneEntered(cs) {
      var i :| 0 <= i < |cs| && cs[i].score.Some?;
      assert Scores(cs)[i] == Some(cs[i].score.value);
      assert cs[i].score.value in p;
    }
  }

  lemma EnteredCounting(cs: seq<Component>)
    ensures (exists v :: v in Present(Scores(cs)) && v >= 0) <==> ValidCount(cs) > 0
  {
    if ValidCount(cs) > 0 {
      CountedIsEntered(cs);
    }
    if exists v :: v in Present(Scores(cs)) && v >= 0 {
      var v :| v in Present(Scores(cs)) && v >= 0;
      EnteredIsCounted(cs, v);
    }
  }

  lemma CountedIsEntered(cs: seq<Component>)
    requires ValidCount(cs) > 0
    ensures exists v :: v in Present(Scores(cs)) && v >= 0
  {
    var i :| 0 <= i < |cs| && Counts(cs[i]);
    assert Scores(cs)[i] == Some(cs[i].score.value);
    assert cs[i].score.value in Present(Scores(cs));
  }

  lemma EnteredIsCounted(cs: seq<Component>, v: int)
    requires v in Present(Scores(cs)) && v >= 0
    ensures ValidCount(cs) > 0
  {
    assert Some(v) in Scores(cs);
    var i :| 0 <= i < |cs| && Scores(cs)[i] == Some(v);
    assert Counts(cs[i]);
  }

  lemma EnteredMalpractice(cs: seq<Component>)
    ensures Malpractice in Present(Scores(cs)) <==> AnyMalpractice(cs)
  {
    var p := Present(Scores(cs));
    if AnyMalpractice(cs) {
      var i :| 0 <= i < |cs| && cs[i].score == Some(Malpractice);
      assert Scores(cs)[i] == Some(Malpractice);
    }
    if Malpractice in p {
      assert Some(Malpractice) in Scores(cs);
      var i :| 0 <= i < |cs| && Scores(cs)[i] == Some(Malpractice);
      assert cs[i].score == Some(Malpractice);
    }
  }

  /** The non-negative entered scores sum to `ValidSum` and number `ValidCount`. */
  lemma {:induction false} NonNegativeScores(cs: seq<Component>)
    ensures Sum(Filter((v: int) => v >= 0, Present(Scores(cs)))) == ValidSum(cs)
    ensures |Filter((v: int) => v >= 0, Present(Scores(cs)))| == ValidCount(cs)
  {
    if |cs| > 0 {
      NonNegativeScores(cs[1..]);
      assert Scores(cs)[1..] == Scores(cs[1..]);
      assert Scores(cs)[0] == cs[0].score;
      var rest := Present(Scores(cs[1..]));
      var nonNeg := (v: int) => v >= 0;
      if cs[0].score.Some? {
        var v := cs[0].score.value;
        assert Present(Scores(cs)) == [v] + rest;
        assert ([v] + rest)[0] == v && ([v] + rest)[1..] == rest;
        if v >= 0 {
          var f := Filter(nonNeg, rest);
          assert Filter(nonNeg, [v] + rest) == [v] + f;
          assert ([v] + f)[0] == v && ([v] + f)[1..] == f;
        } else {
          assert Filter(nonNeg, [v] + rest) == Filter(nonNeg, rest);
        }
      } else {
        assert Present(Scores(cs)) == rest;
      }
    }
  }
}

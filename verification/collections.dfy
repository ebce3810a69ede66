/** Generic sequence helpers standing for the array methods the source relies on:
    `map`, `filter`, `find`, counting and summing. */
module Collections {
  import opened Wrappers

  /** Pointwise image of a sequence. */
  function Map<T, U>(f: T -> U, s: seq<T>): (r: seq<U>)
    ensures |r| == |s|
    ensures forall i :: 0 <= i < |s| ==> r[i] == f(s[i])
  {
    if |s| == 0 then [] else [f(s[0])] + Map(f, s[1..])
  }

  /** The elements of `s` satisfying `p`, in order (`s.filter(p)`). */
  function Filter<T>(p: T -> bool, s: seq<T>): (r: seq<T>)
    ensures |r| <= |s|
    ensures forall i :: 0 <= i < |r| ==> p(r[i]) && r[i] in s
    ensures forall x :: x in s && p(x) ==> x in r
  {
    if |s| == 0 then []
    else if p(s[0]) then [s[0]] + Filter(p, s[1..])
    else Filter(p, s[1..])
  }

  /** Number of elements of `s` satisfying `p`. */
  function Count<T>(p: T -> bool, s: seq<T>): (n: nat)
    ensures n <= |s|
  {
    if |s| == 0 then 0 else (if p(s[0]) then 1 else 0) + Count(p, s[1..])
  }

  lemma {:induction false} CountIsFilterLength<T>(p: T -> bool, s: seq<T>)
    ensures Count(p, s) == |Filter(p, s)|
  {
    if |s| > 0 {
      CountIsFilterLength(p, s[1..]);
    }
  }

  lemma {:induction false} CountAppend<T>(p: T -> bool, s: seq<T>, t: seq<T>)
    ensures Count(p, s + t) == Count(p, s) + Count(p, t)
  {
    if |s| > 0 {
      assert (s + t)[0] == s[0];
      assert (s + t)[1..] == s[1..] + t;
      CountAppend(p, s[1..], t);
    } else {
      assert s + t == t;
    }
  }

  lemma {:induction false} CountAll<T>(p: T -> bool, s: seq<T>)
    requires forall i :: 0 <= i < |s| ==> p(s[i])
    ensures Count(p, s) == |s|
  {
    if |s| > 0 {
      CountAll(p, s[1..]);
    }
  }

  lemma {:induction false} CountNone<T>(p: T -> bool, s: seq<T>)
    requires forall i :: 0 <= i < |s| ==> !p(s[i])
    ensures Count(p, s) == 0
  {
    if |s| > 0 {
      CountNone(p, s[1..]);
    }
  }

  /** Position of the first element satisfying `p` (`findIndex`, with `None` for -1). */
  function FindIndex<T>(p: T -> bool, s: seq<T>): (r: Option<nat>)
    ensures r.Some? ==> r.value < |s| && p(s[r.value]) && forall j :: 0 <= j < r.value ==> !p(s[j])
    ensures r.None? ==> forall j :: 0 <= j < |s| ==> !p(s[j])
  {
    if |s| == 0 then None
    else if p(s[0]) then Some(0)
    else match FindIndex(p, s[1..])
      case None => None
      case Some(k) => Some(k + 1)
  }

  /** The first element satisfying `p` (`find`, with `None` for `undefined`). */
  function Find<T>(p: T -> bool, s: seq<T>): (r: Option<T>)
    ensures r.None? <==> forall j :: 0 <= j < |s| ==> !p(s[j])
    ensures r.Some? ==> r.value in s && p(r.value)
  {
    match FindIndex(p, s)
    case None => None
    case Some(i) => Some(s[i])
  }

  /** Some element satisfies `p` (`some`). */
  predicate Any<T>(p: T -> bool, s: seq<T>) {
    exists i :: 0 <= i < |s| && p(s[i])
  }

  /** Sum of integers (`reduce((a, b) => a + b, 0)`). */
  function Sum(s: seq<int>): int {
    if |s| == 0 then 0 else s[0] + Sum(s[1..])
  }

  /** Sum of rationals. */
  function SumReal(s: seq<real>): real {
    if |s| == 0 then 0.0 else s[0] + SumReal(s[1..])
  }

  lemma {:induction false} SumBounds(s: seq<int>, lo: int, hi: int)
    requires forall i :: 0 <= i < |s| ==> lo <= s[i] <= hi
    ensures |s| * lo <= Sum(s) <= |s| * hi
  {
    if |s| > 0 {
      SumBounds(s[1..], lo, hi);
    }
  }

  lemma {:induction false} SumRealBounds(s: seq<real>, lo: real, hi: real)
    requires forall i :: 0 <= i < |s| ==> lo <= s[i] <= hi
    ensures |s| as real * lo <= SumReal(s) <= |s| as real * hi
  {
    if |s| > 0 {
      SumRealBounds(s[1..], lo, hi);
    }
  }

  /** Nothing from index `i` on passes, so filtering that suffix gives nothing. */
  lemma {:induction false} FilterNoneFrom<T>(p: T -> bool, s: seq<T>, i: nat)
    requires i <= |s|
    requires forall j :: i <= j < |s| ==> !p(s[j])
    ensures Filter(p, s[i..]) == []
    decreases |s| - i
  {
    if i < |s| {
      FilterStep(p, s, i);
      FilterNoneFrom(p, s, i + 1);
    }
  }

  /** Nothing before index `i` passes, so filtering skips that prefix. */
  lemma {:induction false} FilterSkip<T>(p: T -> bool, s: seq<T>, i: nat)
    requires i <= |s|
    requires forall j :: 0 <= j < i ==> !p(s[j])
    ensures Filter(p, s) == Filter(p, s[i..])
  {
    if i > 0 {
      FilterSkip(p, s, i - 1);
      FilterStep(p, s, i - 1);
    } else {
      assert s[0..] == s;
    }
  }

  /** Filtering from `i` on: the element at `i` when it passes, then the filtered rest. */
  lemma FilterStep<T>(p: T -> bool, s: seq<T>, i: nat)
    requires i < |s|
    ensures Filter(p, s[i..]) == (if p(s[i]) then [s[i]] else []) + Filter(p, s[i + 1..])
  {
    assert s[i..][1..] == s[i + 1..];
  }

  /** Counting ignores order: sequences with the same elements have the same count. */
  lemma {:induction false} CountMultiset<T>(p: T -> bool, s: seq<T>, t: seq<T>)
    requires multiset(s) == multiset(t)
    ensures Count(p, s) == Count(p, t)
    decreases |s|
  {
    if |s| == 0 {
      assert |t| == |multiset(t)| == 0;
    } else {
      assert s[0] in multiset(t);
      var k :| 0 <= k < |t| && t[k] == s[0];
      var rest := RemoveAt(p, t, k);
      assert s == [s[0]] + s[1..];
      assert multiset(s) == multiset{s[0]} + multiset(s[1..]);
      CountMultiset(p, s[1..], rest);
    }
  }

  /** `t` without its element at `k`: the count drops by that element's share. */
  lemma RemoveAt<T>(p: T -> bool, t: seq<T>, k: nat) returns (rest: seq<T>)
    requires k < |t|
    ensures rest == t[..k] + t[k + 1..]
    ensures multiset(rest) == multiset(t) - multiset{t[k]}
    ensures Count(p, t) == Count(p, rest) + (if p(t[k]) then 1 else 0)
  {
    rest := t[..k] + t[k + 1..];
    assert t == t[..k] + ([t[k]] + t[k + 1..]);
    CountAppend(p, t[..k], [t[k]] + t[k + 1..]);
    CountAppend(p, [t[k]], t[k + 1..]);
    CountAppend(p, t[..k], t[k + 1..]);
  }

  /** Filtering the images of the elements that pass `p` keeps as many items as there are
      elements passing both tests (`both`). */
  lemma {:induction false} FilterMapFilterLength<T, U>(p: T -> bool, f: T -> U, q: U -> bool, both: T -> bool, s: seq<T>)
    requires forall x :: x in s ==> both(x) == (p(x) && q(f(x)))
    ensures |Filter(q, Map(f, Filter(p, s)))| == Count(both, s)
  {
    if |s| > 0 {
      assert forall x :: x in s[1..] ==> x in s;
      FilterMapFilterLength(p, f, q, both, s[1..]);
      var ps := Filter(p, s[1..]);
      if p(s[0]) {
        assert Filter(p, s) == [s[0]] + ps;
        var m := Map(f, [s[0]] + ps);
        assert m[0] == f(s[0]) && m[1..] == Map(f, ps);
      }
    }
  }

  /** Tests that agree on every element of `s` count alike. */
  lemma {:induction false} CountSame<T>(p: T -> bool, q: T -> bool, s: seq<T>)
    requires forall x :: x in s ==> p(x) == q(x)
    ensures Count(p, s) == Count(q, s)
  {
    if |s| > 0 {
      assert forall x :: x in s[1..] ==> x in s;
      CountSame(p, q, s[1..]);
    }
  }

  /** Counting the images of `s` under `f` with `p` counts the elements passing `q`, where `q`
      is `p` after `f`. */
  lemma {:induction false} CountMap<T, U>(p: U -> bool, f: T -> U, q: T -> bool, s: seq<T>)
    requires forall x :: x in s ==> q(x) == p(f(x))
    ensures Count(p, Map(f, s)) == Count(q, s)
  {
    if |s| > 0 {
      assert forall x :: x in s[1..] ==> x in s;
      CountMap(p, f, q, s[1..]);
      assert Map(f, s)[1..] == Map(f, s[1..]);
    }
  }

  /** The elements of `s` without repeats, each at its first occurrence
      (`Array.from(new Set(s))`). */
  function Distinct<T(==,!new)>(s: seq<T>): (r: seq<T>)
    ensures forall x :: x in r <==> x in s
    ensures forall i, j :: 0 <= i < j < |r| ==> r[i] != r[j]
  {
    if |s| == 0 then []
    else
      var n := |s| - 1;
      var prev := Distinct(s[..n]);
      assert forall x :: x in s <==> x in s[..n] || x == s[n] by {
        assert s == s[..n] + [s[n]];
      }
      if s[n] in prev then prev else prev + [s[n]]
  }
}

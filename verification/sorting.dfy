/** `Array.prototype.sort` with a comparator, as the pages and the engine use it.
    JavaScript's sort is stable; it is modelled here as a stable insertion sort driven by
    `before(a, b)` ("a must come strictly before b", i.e. the comparator is negative). */
module Sorting {
  import opened Collections

  /** `before` is irreflexive and transitive: a strict partial order. */
  ghost predicate StrictOrder<T(!new)>(before: (T, T) -> bool) {
    && (forall a :: !before(a, a))
    && (forall a, b, c :: before(a, b) && before(b, c) ==> before(a, c))
  }

  /** No element is strictly before an element to its left. */
  ghost predicate SortedBy<T>(s: seq<T>, before: (T, T) -> bool) {
    forall i, j :: 0 <= i < j < |s| ==> !before(s[j], s[i])
  }

  /** Places `x` in front of the first element it must precede, after all others. */
  function Insert<T>(x: T, s: seq<T>, before: (T, T) -> bool): (r: seq<T>)
    ensures |r| == |s| + 1
    ensures multiset(r) == multiset(s) + multiset{x}
  {
    if |s| == 0 then [x]
    else if before(x, s[0]) then [x] + s
    else
      assert s == [s[0]] + s[1..];
      [s[0]] + Insert(x, s[1..], before)
  }

  /** Stable insertion sort: the input is consumed left to right. */
  function SortBy<T>(s: seq<T>, before: (T, T) -> bool): (r: seq<T>)
    ensures |r| == |s|
    ensures multiset(r) == multiset(s)
  {
    if |s| == 0 then []
    else
      assert s == s[..|s| - 1] + [s[|s| - 1]];
      Insert(s[|s| - 1], SortBy(s[..|s| - 1], before), before)
  }

  lemma {:induction false} InsertSorted<T(!new)>(x: T, s: seq<T>, before: (T, T) -> bool)
    requires StrictOrder(before)
    requires SortedBy(s, before)
    ensures SortedBy(Insert(x, s, before), before)
  {
    var r := Insert(x, s, before);
    if |s| == 0 {
    } else if before(x, s[0]) {
      forall i, j | 0 <= i < j < |r|
        ensures !before(r[j], r[i])
      {
        if i == 0 {
          assert r[j] == s[j - 1];
          assert before(x, s[0]);
        } else {
          assert r[i] == s[i - 1] && r[j] == s[j - 1];
        }
      }
    } else {
      var tail := Insert(x, s[1..], before);
      InsertSorted(x, s[1..], before);
      assert multiset(tail) == multiset(s[1..]) + multiset{x};
      forall i, j | 0 <= i < j < |r|
        ensures !before(r[j], r[i])
      {
        if i == 0 {
          assert r[j] == tail[j - 1];
          assert r[j] in multiset(tail);
          assert r[j] == x || r[j] in multiset(s[1..]);
          if r[j] != x {
            var k :| 1 <= k < |s| && s[k] == r[j];
          }
        } else {
          assert r[i] == tail[i - 1] && r[j] == tail[j - 1];
        }
      }
    }
  }

  /** The result of `SortBy` is ordered by `before`. */
  lemma {:induction false} SortBySorted<T(!new)>(s: seq<T>, before: (T, T) -> bool)
    requires StrictOrder(before)
    ensures SortedBy(SortBy(s, before), before)
  {
    if |s| > 0 {
      SortBySorted(s[..|s| - 1], before);
      InsertSorted(s[|s| - 1], SortBy(s[..|s| - 1], before), before);
    }
  }

  /** `before` on the images agrees with `before'` on the originals, for elements of `s`. */
  ghost predicate Reflects<T, U>(f: T -> U, s: seq<T>, before: (T, T) -> bool, before': (U, U) -> bool) {
    forall a, b :: a in s && b in s ==> before'(f(a), f(b)) == before(a, b)
  }

  /** `Reflects` carries over to any sequence whose elements all come from `s`. */
  lemma ReflectsSubset<T, U>(f: T -> U, s: seq<T>, t: seq<T>, before: (T, T) -> bool, before': (U, U) -> bool)
    requires Reflects(f, s, before, before')
    requires forall a :: a in t ==> a in s
    ensures Reflects(f, t, before, before')
  {
  }

  lemma {:induction false} InsertMap<T, U>(f: T -> U, x: T, s: seq<T>, before: (T, T) -> bool, before': (U, U) -> bool)
    requires Reflects(f, s + [x], before, before')
    ensures Insert(f(x), Map(f, s), before') == Map(f, Insert(x, s, before))
  {
    if |s| > 0 {
      assert s[0] in s + [x] && x in s + [x];
      forall a | a in s[1..] + [x]
        ensures a in s + [x]
      {
        if a in s[1..] {
          var k :| 0 <= k < |s[1..]| && s[1..][k] == a;
          assert (s + [x])[k + 1] == a;
        }
      }
      ReflectsSubset(f, s + [x], s[1..] + [x], before, before');
      InsertMap(f, x, s[1..], before, before');
      assert Map(f, s)[1..] == Map(f, s[1..]);
    }
  }

  /** The sorted front of `s` and its last element together come from `s`. */
  lemma SortedElementsComeFromInput<T>(s: seq<T>, before: (T, T) -> bool)
    requires |s| > 0
    ensures forall a :: a in SortBy(s[..|s| - 1], before) + [s[|s| - 1]] ==> a in s
  {
    var init := s[..|s| - 1];
    var sorted := SortBy(init, before);
    PrefixInside(s);
    forall a | a in sorted + [s[|s| - 1]]
      ensures a in s
    {
      if a in sorted {
        assert a in multiset(sorted);
        assert a in multiset(init);
      }
    }
  }

  /** Sorting commutes with a projection that preserves the order: sorting the images gives
      the images of the sorted sequence. */
  lemma {:induction false} SortByMap<T, U>(f: T -> U, s: seq<T>, before: (T, T) -> bool, before': (U, U) -> bool)
    requires Reflects(f, s, before, before')
    ensures SortBy(Map(f, s), before') == Map(f, SortBy(s, before))
  {
    if |s| > 0 {
      var init := s[..|s| - 1];
      var last := s[|s| - 1];
      PrefixInside(s);
      ReflectsSubset(f, s, init, before, before');
      SortByMap(f, init, before, before');
      var sorted := SortBy(init, before);
      SortedElementsComeFromInput(s, before);
      ReflectsSubset(f, s, sorted + [last], before, before');
      InsertMap(f, last, sorted, before, before');
      MapPrefix(f, s);
    }
  }

  lemma PrefixInside<T>(s: seq<T>)
    requires |s| > 0
    ensures forall a :: a in s[..|s| - 1] ==> a in s
  {
    assert s == s[..|s| - 1] + [s[|s| - 1]];
  }

  lemma MapPrefix<T, U>(f: T -> U, s: seq<T>)
    requires |s| > 0
    ensures Map(f, s)[..|s| - 1] == Map(f, s[..|s| - 1]) && Map(f, s)[|s| - 1] == f(s[|s| - 1])
  {
  }
}

/**
  Stable sorting of sequences by a comparison `le` ("sorts before or equal"),
  as Kotlin's `sortedBy`, `sortBy` and `sortByDescending` do: the result is
  ordered, is a permutation of the input, and keeps the input order of
  elements that compare equal.
 */
module Sorting {
  import Sequences

  /** `le` is total and transitive: what a key comparison provides. */
  ghost predicate TotalPreorder<T(!new)>(le: (T, T) -> bool) {
    && (forall a, b :: le(a, b) || le(b, a))
    && (forall a, b, c :: le(a, b) && le(b, c) ==> le(a, c))
  }

  predicate Sorted<T>(s: seq<T>, le: (T, T) -> bool) {
    forall i, j :: 0 <= i < j < |s| ==> le(s[i], s[j])
  }

  /** Places `x` after the last element `e` of `s` with `le(e, x)`. */
  function Insert<T>(x: T, s: seq<T>, le: (T, T) -> bool): (r: seq<T>)
    ensures multiset(r) == multiset(s) + multiset{x}
  {
    if s == [] then [x]
    else if le(s[|s| - 1], x) then s + [x]
    else
      assert s == s[..|s| - 1] + [s[|s| - 1]];
      Insert(x, s[..|s| - 1], le) + [s[|s| - 1]]
  }

  /** Insertion sort, taking the elements of `s` from left to right. */
  function Sort<T>(s: seq<T>, le: (T, T) -> bool): (r: seq<T>)
    ensures multiset(r) == multiset(s)
  {
    if s == [] then []
    else
      var init := s[..|s| - 1];
      assert s == init + [s[|s| - 1]];
      Insert(s[|s| - 1], Sort(init, le), le)
  }

  lemma {:induction false} InsertSorted<T(!new)>(x: T, s: seq<T>, le: (T, T) -> bool)
    requires TotalPreorder(le) && Sorted(s, le)
    ensures Sorted(Insert(x, s, le), le)
  {
    if s != [] && !le(s[|s| - 1], x) {
      var init := s[..|s| - 1];
      var last := s[|s| - 1];
      InsertSorted(x, init, le);
      var r := Insert(x, init, le);
      forall e | e in r
        ensures le(e, last)
      {
        assert e in multiset(r);
        if e != x {
          assert e in multiset(init);
          var i :| 0 <= i < |init| && init[i] == e;
          assert s[i] == e;
        }
      }
      forall i, j | 0 <= i < j < |r + [last]|
        ensures le((r + [last])[i], (r + [last])[j])
      {
        if j == |r| {
          assert (r + [last])[i] in r;
        }
      }
    }
  }

  /** The result is ordered whenever `le` is a total preorder. */
  lemma {:induction false} SortSorted<T(!new)>(s: seq<T>, le: (T, T) -> bool)
    requires TotalPreorder(le)
    ensures Sorted(Sort(s, le), le)
  {
    if s != [] {
      SortSorted(s[..|s| - 1], le);
      InsertSorted(s[|s| - 1], Sort(s[..|s| - 1], le), le);
    }
  }

  /** An already ordered sequence is returned unchanged. */
  lemma {:induction false} SortOfSorted<T>(s: seq<T>, le: (T, T) -> bool)
    requires Sorted(s, le)
    ensures Sort(s, le) == s
  {
    if s != [] {
      var init, last := s[..|s| - 1], s[|s| - 1];
      assert Sorted(init, le) by {
        assert forall i :: 0 <= i < |init| ==> init[i] == s[i];
      }
      SortOfSorted(init, le);
      assert Sort(s, le) == Insert(last, init, le);
      assert Insert(last, init, le) == init + [last] by {
        if init != [] {
          assert le(init[|init| - 1], last);
        }
      }
      Sequences.SplitLast(s);
    }
  }

  /** `a` and `b` compare equal. */
  predicate Tied<T>(le: (T, T) -> bool, a: T, b: T) {
    le(a, b) && le(b, a)
  }

  /** The test "tied with `k`", as one value so that every use denotes the same function. */
  function TiedWith<T>(le: (T, T) -> bool, k: T): T -> bool {
    e => Tied(le, e, k)
  }

  lemma {:induction false} InsertStable<T(!new)>(x: T, s: seq<T>, le: (T, T) -> bool, k: T)
    requires TiesBelow(le, x, k)
    ensures Sequences.Filter(Insert(x, s, le), TiedWith(le, k))
         == Sequences.Filter(s, TiedWith(le, k)) + (if Tied(le, x, k) then [x] else [])
  {
    var p := TiedWith(le, k);
    Sequences.FilterSingle(x, p);
    assert p(x) == Tied(le, x, k);
    if s == [] {
      assert Insert(x, s, le) == [x];
      assert Sequences.Filter(s, p) == [];
    } else if le(s[|s| - 1], x) {
      assert Insert(x, s, le) == s + [x];
      Sequences.FilterAppend(s, [x], p);
    } else {
      var init := s[..|s| - 1];
      var last := s[|s| - 1];
      var r := Insert(x, init, le);
      var tail := if Tied(le, x, k) then [x] else [];
      var fl := Sequences.Filter([last], p);
      InsertStable(x, init, le, k);
      assert Sequences.Filter(Insert(x, s, le), p) == Sequences.Filter(r, p) + fl by {
        assert Insert(x, s, le) == r + [last];
        Sequences.FilterAppend(r, [last], p);
      }
      assert Sequences.Filter(s, p) == Sequences.Filter(init, p) + fl by {
        Sequences.SplitLast(s);
        Sequences.FilterAppend(init, [last], p);
      }
      assert tail == [] || fl == [] by {
        Sequences.FilterSingle(last, p);
        assert Tied(le, x, k) ==> !Tied(le, last, k);
      }
      SwapEmpty(Sequences.Filter(init, p), tail, fl);
    }
  }

  /** Two pieces commute past each other when one of them is empty. */
  lemma SwapEmpty<T>(a: seq<T>, b: seq<T>, c: seq<T>)
    requires b == [] || c == []
    ensures a + b + c == a + c + b
  {}

  /** When `x` is tied with `k`, so is everything tied with `k` below `x`. */
  ghost predicate TiesBelow<T(!new)>(le: (T, T) -> bool, x: T, k: T) {
    forall a :: Tied(le, x, k) && Tied(le, a, k) ==> le(a, x)
  }

  lemma TiesBelowOfPreorder<T(!new)>(le: (T, T) -> bool, x: T, k: T)
    requires TotalPreorder(le)
    ensures TiesBelow(le, x, k)
  {}

  /**
    Stability: for every `k`, the elements tied with `k` appear in the result
    in the same order as in the input.
   */
  lemma {:induction false} SortStable<T(!new)>(s: seq<T>, le: (T, T) -> bool, k: T)
    requires TotalPreorder(le)
    ensures Sequences.Filter(Sort(s, le), TiedWith(le, k)) == Sequences.Filter(s, TiedWith(le, k))
  {
    var p := TiedWith(le, k);
    if s != [] {
      var init := s[..|s| - 1];
      var last := s[|s| - 1];
      assert s == init + [last];
      assert Sort(s, le) == Insert(last, Sort(init, le), le);
      SortStable(init, le, k);
      TiesBelowOfPreorder(le, last, k);
      InsertStable(last, Sort(init, le), le, k);
      Sequences.FilterAppend(init, [last], p);
      Sequences.FilterSingle(last, p);
    }
  }
}

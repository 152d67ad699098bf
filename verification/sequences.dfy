/** Order-preserving selection over sequences (Kotlin's `filter` on a list). */
module Sequences {

  /** The elements of `s` satisfying `p`, in their original order. */
  function Filter<T(!new)>(s: seq<T>, p: T -> bool): (r: seq<T>)
    ensures |r| <= |s|
    ensures multiset(r) <= multiset(s)
  {
    if s == [] then []
    else
      assert s == s[..|s| - 1] + [s[|s| - 1]];
      Filter(s[..|s| - 1], p) + (if p(s[|s| - 1]) then [s[|s| - 1]] else [])
  }

  lemma {:induction false} FilterAppend<T(!new)>(a: seq<T>, b: seq<T>, p: T -> bool)
    ensures Filter(a + b, p) == Filter(a, p) + Filter(b, p)
  {
    if b == [] {
      assert a + b == a;
    } else {
      var b' := b[..|b| - 1];
      assert (a + b)[..|a + b| - 1] == a + b';
      FilterAppend(a, b', p);
    }
  }

  /** A non-empty sequence is its front followed by its last element. */
  lemma SplitLast<T>(s: seq<T>)
    requires s != []
    ensures s == s[..|s| - 1] + [s[|s| - 1]]
  {
  }

  lemma FilterSingle<T(!new)>(x: T, p: T -> bool)
    ensures Filter([x], p) == if p(x) then [x] else []
  {
    assert [x][..0] == [];
  }

  /** Exactly the elements of `s` that satisfy `p` are kept. */
  lemma {:induction false} FilterMembers<T(!new)>(s: seq<T>, p: T -> bool)
    ensures forall e :: e in Filter(s, p) <==> e in s && p(e)
  {
    if s != [] {
      FilterMembers(s[..|s| - 1], p);
      assert s == s[..|s| - 1] + [s[|s| - 1]];
    }
  }

  /** Keeping everything is the identity. */
  lemma {:induction false} FilterAll<T(!new)>(s: seq<T>, p: T -> bool)
    requires forall e :: e in s ==> p(e)
    ensures Filter(s, p) == s
  {
    if s != [] {
      var init, last := s[..|s| - 1], s[|s| - 1];
      assert s == init + [last];
      assert forall e :: e in init ==> p(e) by {
        forall e | e in init ensures p(e) {
          assert e in s;
        }
      }
      FilterAll(init, p);
      assert p(last);
      assert Filter(s, p) == Filter(init, p) + [last];
    }
  }

  /** The index of the first element satisfying `p`, if any. */
  function FirstIndex<T>(s: seq<T>, p: T -> bool): (r: int)
    ensures -1 <= r < |s|
    ensures r >= 0 ==> p(s[r]) && forall j :: 0 <= j < r ==> !p(s[j])
    ensures r == -1 <==> forall j :: 0 <= j < |s| ==> !p(s[j])
  {
    if s == [] then -1
    else if p(s[0]) then 0
    else
      var k := FirstIndex(s[1..], p);
      if k == -1 then -1 else k + 1
  }

  /** Sequences whose elements agree on `p` place by place find the same first index. */
  lemma {:induction false} FirstIndexSame<T>(a: seq<T>, b: seq<T>, p: T -> bool)
    requires |a| == |b|
    requires forall k :: 0 <= k < |a| ==> p(a[k]) == p(b[k])
    ensures FirstIndex(a, p) == FirstIndex(b, p)
  {
    if a != [] && !p(a[0]) {
      assert forall k :: 0 <= k < |a| - 1 ==> a[1..][k] == a[k + 1] && b[1..][k] == b[k + 1];
      FirstIndexSame(a[1..], b[1..], p);
    }
  }

  /** Appending an element only matters when nothing before it satisfies `p`. */
  lemma FirstIndexAppend<T>(s: seq<T>, x: T, p: T -> bool)
    ensures FirstIndex(s + [x], p) ==
      if FirstIndex(s, p) >= 0 then FirstIndex(s, p) else if p(x) then |s| else -1
  {
    var t := s + [x];
    var i := FirstIndex(s, p);
    var j := FirstIndex(t, p);
    assert forall k :: 0 <= k < |s| ==> t[k] == s[k];
    if i >= 0 {
      assert p(t[i]);
    } else if p(x) {
      assert p(t[|s|]);
    }
  }

  /** The first index is the one index that satisfies `p` with nothing before it that does. */
  lemma FirstIndexIs<T>(s: seq<T>, p: T -> bool, k: int)
    requires 0 <= k < |s| && p(s[k])
    requires forall j :: 0 <= j < k ==> !p(s[j])
    ensures FirstIndex(s, p) == k
  {
    var f := FirstIndex(s, p);
    assert f >= 0;
    assert !(f < k) && !(k < f);
  }

  /** Removing an element that does not satisfy `p` keeps the first element that does. */
  lemma FirstIndexRemove<T>(l: seq<T>, x: T, r: seq<T>, p: T -> bool)
    requires !p(x)
    ensures var k := FirstIndex(l + [x] + r, p);
      var k' := FirstIndex(l + r, p);
      (k < 0 <==> k' < 0) && (k >= 0 ==> k' >= 0 && (l + [x] + r)[k] == (l + r)[k'])
  {
    var s, t := l + [x] + r, l + r;
    var k := FirstIndex(s, p);
    if k < 0 {
      forall j | 0 <= j < |t| ensures !p(t[j]) {
        if j < |l| { assert t[j] == s[j]; } else { assert t[j] == s[j + 1]; }
      }
    } else if k < |l| {
      assert forall j :: 0 <= j <= k ==> t[j] == s[j];
      FirstIndexIs(t, p, k);
    } else {
      assert k > |l|;
      forall j | 0 <= j < k - 1 ensures !p(t[j]) {
        if j < |l| { assert t[j] == s[j]; } else { assert t[j] == s[j + 1]; }
      }
      assert t[k - 1] == s[k];
      FirstIndexIs(t, p, k - 1);
    }
  }
}

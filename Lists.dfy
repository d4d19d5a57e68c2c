/**
 * The Kotlin collection operations the library is written with
 * (`filter`/`filterIsInstance`, `firstOrNull`, `mapNotNull`), as functions
 * over sequences, with the facts about order that the library relies on.
 */
module Lists {
  import opened Wrappers

  /** `i` is the position of the first element of `s` that satisfies `p`. */
  ghost predicate FirstMatchAt<T>(s: seq<T>, p: T -> bool, i: int) {
    0 <= i < |s| && p(s[i]) && forall j :: 0 <= j < i ==> !p(s[j])
  }

  /** There is only one first match. */
  lemma FirstMatchUnique<T>(s: seq<T>, p: T -> bool, i: int, j: int)
    requires FirstMatchAt(s, p, i) && FirstMatchAt(s, p, j)
    ensures i == j
  {
  }

  /** `s.filter(p)`: the elements of `s` that satisfy `p`, in their order. */
  function Filter<T(!new)>(s: seq<T>, p: T -> bool): (r: seq<T>)
    ensures |r| <= |s|
    ensures forall x :: x in r <==> x in s && p(x)
  {
    if s == [] then []
    else (if p(s[0]) then [s[0]] else []) + Filter(s[1..], p)
  }

  /** Filtering distributes over concatenation: it keeps the relative order of the elements. */
  lemma {:induction false} FilterAppend<T(!new)>(a: seq<T>, b: seq<T>, p: T -> bool)
    ensures Filter(a + b, p) == Filter(a, p) + Filter(b, p)
  {
    if a == [] {
      assert a + b == b;
    } else {
      assert (a + b)[0] == a[0];
      assert (a + b)[1..] == a[1..] + b;
      FilterAppend(a[1..], b, p);
    }
  }

  /** `s.firstOrNull(p)`: the first element of `s` that satisfies `p`, if any. */
  function FirstOrNull<T>(s: seq<T>, p: T -> bool): (r: Option<T>)
    ensures r.None? <==> forall i :: 0 <= i < |s| ==> !p(s[i])
    ensures r.Some? ==> exists i :: FirstMatchAt(s, p, i) && s[i] == r.value
  {
    if s == [] then None
    else if p(s[0]) then (assert FirstMatchAt(s, p, 0); Some(s[0]))
    else
      assert forall k :: FirstMatchAt(s[1..], p, k) ==> FirstMatchAt(s, p, k + 1);
      FirstOrNull(s[1..], p)
  }

  /** The head of a non-empty filter is the first match in the unfiltered sequence. */
  lemma {:induction false} FilterHead<T(!new)>(s: seq<T>, p: T -> bool)
    ensures Filter(s, p) == [] <==> FirstOrNull(s, p) == None
    ensures Filter(s, p) != [] ==> FirstOrNull(s, p) == Some(Filter(s, p)[0])
  {
    if s != [] && !p(s[0]) {
      FilterHead(s[1..], p);
    }
  }

  /**
   * Looking for the first `q` among the elements that satisfy `p` finds the
   * first element that satisfies both.
   */
  lemma {:induction false} FirstOrNullOfFilter<T(!new)>(s: seq<T>, p: T -> bool, q: T -> bool, pq: T -> bool)
    requires forall x :: pq(x) == (p(x) && q(x))
    ensures FirstOrNull(Filter(s, p), q) == FirstOrNull(s, pq)
  {
    if s != [] {
      var f := Filter(s, p);
      var tail := Filter(s[1..], p);
      FirstOrNullOfFilter(s[1..], p, q, pq);
      if p(s[0]) {
        assert f == [s[0]] + tail;
        assert f[0] == s[0] && f[1..] == tail;
      } else {
        assert f == tail;
      }
    }
  }

  /** `s.mapNotNull(f)`: the present results of `f` over `s`, in order. */
  function MapNotNull<T(!new), U(!new)>(s: seq<T>, f: T -> Option<U>): (r: seq<U>)
    ensures |r| <= |s|
    ensures forall y :: y in r <==> exists x :: x in s && f(x) == Some(y)
  {
    if s == [] then []
    else
      var rest := MapNotNull(s[1..], f);
      assert forall x :: x in s[1..] ==> x in s;
      assert forall x :: x in s ==> x == s[0] || x in s[1..];
      match f(s[0])
      case Some(y) => [y] + rest
      case None => rest
  }

  /** `mapNotNull` distributes over concatenation: it keeps the relative order of the results. */
  lemma {:induction false} MapNotNullAppend<T(!new), U(!new)>(a: seq<T>, b: seq<T>, f: T -> Option<U>)
    ensures MapNotNull(a + b, f) == MapNotNull(a, f) + MapNotNull(b, f)
  {
    if a == [] {
      assert a + b == b;
    } else {
      assert (a + b)[0] == a[0];
      assert (a + b)[1..] == a[1..] + b;
      MapNotNullAppend(a[1..], b, f);
    }
  }
}

/**
 * The list operations the Kotlin code takes from its standard library:
 * `filter` (and `removeIf`, which keeps the complement), `find`,
 * `remove(element)` (first occurrence only) and `map`.
 */
module Seqs {
  import opened Outcomes

  /** The elements of `s` that satisfy `p`, in their original order. */
  function Filter<T>(s: seq<T>, p: T -> bool): (r: seq<T>)
    ensures |r| <= |s|
    ensures forall x <- r :: x in s && p(x)
    ensures forall x <- s :: p(x) ==> x in r
  {
    if s == [] then [] else (if p(s[0]) then [s[0]] else []) + Filter(s[1..], p)
  }

  /** Filtering works piecewise, so kept elements stay in their relative order. */
  lemma {:induction false} FilterAppend<T>(a: seq<T>, b: seq<T>, p: T -> bool)
    ensures Filter(a + b, p) == Filter(a, p) + Filter(b, p)
  {
    if a != [] {
      assert (a + b)[1..] == a[1..] + b;
      FilterAppend(a[1..], b, p);
    } else {
      assert a + b == b;
    }
  }

  /** Filtering changes nothing exactly when every element already satisfies `p`. */
  lemma {:induction false} FilterKeepsAll<T>(s: seq<T>, p: T -> bool)
    ensures Filter(s, p) == s <==> forall x <- s :: p(x)
  {
    if s != [] {
      FilterKeepsAll(s[1..], p);
      if !p(s[0]) {
        assert |Filter(s, p)| < |s|;
      } else {
        assert forall x <- s :: x == s[0] || x in s[1..];
      }
    }
  }

  /** Two filters can be applied in either order. */
  lemma {:induction false} FilterCommute<T>(s: seq<T>, p: T -> bool, q: T -> bool)
    ensures Filter(Filter(s, p), q) == Filter(Filter(s, q), p)
  {
    if s != [] {
      var x, t := s[0], s[1..];
      FilterCommute(t, p, q);
      assert Filter(s, p) == (if p(x) then [x] else []) + Filter(t, p);
      assert Filter(s, q) == (if q(x) then [x] else []) + Filter(t, q);
      var both := if p(x) && q(x) then [x] else [];
      if p(x) {
        FilterCons(x, Filter(t, p), q);
      } else {
        assert Filter(s, p) == Filter(t, p);
      }
      if q(x) {
        FilterCons(x, Filter(t, q), p);
      } else {
        assert Filter(s, q) == Filter(t, q);
      }
      assert Filter(Filter(s, p), q) == both + Filter(Filter(t, p), q);
      assert Filter(Filter(s, q), p) == both + Filter(Filter(t, q), p);
    }
  }

  lemma FilterCons<T>(x: T, s: seq<T>, p: T -> bool)
    ensures Filter([x] + s, p) == (if p(x) then [x] else []) + Filter(s, p)
  {
    assert ([x] + s)[1..] == s;
  }

  /** Filtering with a predicate no element satisfies leaves nothing. */
  lemma FilterKeepsNone<T>(s: seq<T>, p: T -> bool)
    requires forall x <- s :: !p(x)
    ensures Filter(s, p) == []
  {
  }

  /** The index of the first element of `s` that satisfies `p`, if any. */
  function FindIndex<T>(s: seq<T>, p: T -> bool): (r: Option<nat>)
    ensures r.Some? ==> r.value < |s| && p(s[r.value])
    ensures r.Some? ==> forall j :: 0 <= j < r.value ==> !p(s[j])
    ensures r.None? <==> forall j :: 0 <= j < |s| ==> !p(s[j])
  {
    if s == [] then None
    else if p(s[0]) then Some(0)
    else match FindIndex(s[1..], p)
      case Some(i) => Some(i + 1)
      case None => None
  }

  /** Kotlin's `find`: the first element that satisfies `p`, if any. */
  function Find<T>(s: seq<T>, p: T -> bool): Option<T>
  {
    match FindIndex(s, p)
    case Some(i) => Some(s[i])
    case None => None
  }

  /** Kotlin's `MutableList.remove(x)`: drops the first element equal to `x`. */
  function RemoveFirst<T(==)>(s: seq<T>, x: T): (r: seq<T>)
    ensures x !in s ==> r == s
    ensures x in s ==> |r| == |s| - 1
  {
    if s == [] then []
    else if s[0] == x then s[1..]
    else [s[0]] + RemoveFirst(s[1..], x)
  }

  /** RemoveFirst takes away one `x`, if there is one, and nothing else. */
  lemma {:induction false} RemoveFirstMultiset<T>(s: seq<T>, x: T)
    ensures multiset(RemoveFirst(s, x)) == multiset(s) - multiset{x}
  {
    if s != [] {
      assert s == [s[0]] + s[1..];
      assert multiset(s) == multiset{s[0]} + multiset(s[1..]);
      RemoveFirstMultiset(s[1..], x);
    }
  }

  /**
   * RemoveFirst cuts out exactly the first occurrence: what precedes it and
   * what follows it stay, in order.
   */
  lemma {:induction false} RemoveFirstAt<T>(s: seq<T>, x: T, i: nat)
    requires i < |s| && s[i] == x
    requires forall j :: 0 <= j < i ==> s[j] != x
    ensures RemoveFirst(s, x) == s[..i] + s[i + 1..]
  {
    if i == 0 {
      assert RemoveFirst(s, x) == s[1..];
      assert s[..0] + s[1..] == s[1..];
    } else {
      assert s[0] != x;
      var t := s[1..];
      RemoveFirstAt(t, x, i - 1);
      assert RemoveFirst(s, x) == [s[0]] + RemoveFirst(t, x);
      assert t[..i - 1] == s[1..i] && t[i..] == s[i + 1..];
      assert s[..i] == [s[0]] + s[1..i];
    }
  }

  /** No element occurs twice. */
  predicate Distinct<T(==)>(s: seq<T>)
  {
    forall i, j :: 0 <= i < j < |s| ==> s[i] != s[j]
  }

  /** With no duplicates, removing `x` once leaves no `x` behind. */
  lemma RemoveFirstOfDistinct<T>(s: seq<T>, x: T)
    requires Distinct(s)
    ensures x !in RemoveFirst(s, x)
    ensures Distinct(RemoveFirst(s, x))
  {
    var r := RemoveFirst(s, x);
    if x in s {
      var i :| 0 <= i < |s| && s[i] == x;
      RemoveFirstAt(s, x, i);
      assert r == s[..i] + s[i + 1..];
      forall j | 0 <= j < |r| ensures r[j] != x {
        if j < i { assert r[j] == s[j]; } else { assert r[j] == s[j + 1]; }
      }
      forall j, k | 0 <= j < k < |r| ensures r[j] != r[k] {
        var j' := if j < i then j else j + 1;
        var k' := if k < i then k else k + 1;
        assert r[j] == s[j'] && r[k] == s[k'];
      }
    }
  }

  /** Kotlin's `map`. */
  function Map<A, B>(f: A -> B, s: seq<A>): (r: seq<B>)
    ensures |r| == |s| && forall i :: 0 <= i < |s| ==> r[i] == f(s[i])
  {
    seq(|s|, i requires 0 <= i < |s| => f(s[i]))
  }
}

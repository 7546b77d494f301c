/**
 * Helpers shared by the model: an Option type for results that may be
 * missing, and order-preserving filtering, which is the shape of every
 * list comprehension in mods_manager.py (`[x for x in s if p(x)]`).
 */
module Basics {

  datatype Option<T> = None | Some(value: T)

  /** The elements of `s` that satisfy `p`, in their original order. */
  function Filter<T>(p: T -> bool, s: seq<T>): (r: seq<T>)
    ensures |r| <= |s|
  {
    if s == [] then [] else (if p(s[0]) then [s[0]] else []) + Filter(p, s[1..])
  }

  /** `a` is obtained from `b` by deleting elements: same relative order, nothing added. */
  ghost predicate IsSubsequence<T>(a: seq<T>, b: seq<T>)
    decreases |b|
  {
    a == [] || (b != [] && (IsSubsequence(a, b[1..]) || (a[0] == b[0] && IsSubsequence(a[1..], b[1..]))))
  }

  /** Filtering keeps exactly the elements satisfying `p`, each as often as it occurs, in order. */
  lemma {:induction false} FilterExact<T>(p: T -> bool, s: seq<T>)
    ensures forall x :: x in Filter(p, s) <==> x in s && p(x)
    ensures forall x :: multiset(Filter(p, s))[x] == if p(x) then multiset(s)[x] else 0
    ensures IsSubsequence(Filter(p, s), s)
  {
    if s != [] {
      FilterExact(p, s[1..]);
      assert s == [s[0]] + s[1..];
      assert multiset(s) == multiset{s[0]} + multiset(s[1..]);
      var r := Filter(p, s);
      if p(s[0]) {
        assert r[0] == s[0] && r[1..] == Filter(p, s[1..]);
      } else {
        assert r == Filter(p, s[1..]);
      }
    }
  }

  /** The membership part of FilterExact. */
  lemma FilterMembers<T>(p: T -> bool, s: seq<T>)
    ensures forall x :: x in Filter(p, s) <==> x in s && p(x)
  {
    FilterExact(p, s);
  }

  /** Filtering a sequence extended at the end, as a loop that appends does. */
  lemma {:induction false} FilterAppend<T>(p: T -> bool, s: seq<T>, x: T)
    ensures Filter(p, s + [x]) == Filter(p, s) + (if p(x) then [x] else [])
  {
    if s != [] {
      assert (s + [x])[1..] == s[1..] + [x];
      FilterAppend(p, s[1..], x);
    }
  }

  /** Two filters can be applied in either order. */
  lemma {:induction false} FilterCommutes<T>(p: T -> bool, q: T -> bool, s: seq<T>)
    ensures Filter(p, Filter(q, s)) == Filter(q, Filter(p, s))
  {
    if s != [] {
      var x, t := s[0], s[1..];
      var both: seq<T> := if p(x) && q(x) then [x] else [];
      FilterCommutes(p, q, t);
      var qx: seq<T> := if q(x) then [x] else [];
      var px: seq<T> := if p(x) then [x] else [];
      FilterConcat(p, qx, Filter(q, t));
      FilterConcat(q, px, Filter(p, t));
      assert Filter(p, qx) == both;
      assert Filter(q, px) == both;
    }
  }

  /** Filtering distributes over concatenation. */
  lemma {:induction false} FilterConcat<T>(p: T -> bool, a: seq<T>, b: seq<T>)
    ensures Filter(p, a + b) == Filter(p, a) + Filter(p, b)
  {
    if a == [] {
      assert a + b == b;
    } else {
      var h: seq<T> := if p(a[0]) then [a[0]] else [];
      assert (a + b)[0] == a[0];
      assert (a + b)[1..] == a[1..] + b;
      FilterConcat(p, a[1..], b);
      calc {
        Filter(p, a + b);
        h + Filter(p, a[1..] + b);
        h + (Filter(p, a[1..]) + Filter(p, b));
        (h + Filter(p, a[1..])) + Filter(p, b);
        Filter(p, a) + Filter(p, b);
      }
    }
  }
}

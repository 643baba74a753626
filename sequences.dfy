/** Order-preserving selection of the elements of a sequence that satisfy a
    predicate; the shape of every row filter of the dashboard. */
module Sequences {

  /** The elements of `s` that satisfy `p`, in their original order. */
  function Filter<T(!new)>(p: T -> bool, s: seq<T>): (r: seq<T>)
    ensures |r| <= |s|
    ensures forall i :: 0 <= i < |r| ==> p(r[i])
  {
    if s == [] then []
    else (if p(s[0]) then [s[0]] else []) + Filter(p, s[1..])
  }

  /** An element is kept exactly when it occurs in `s` and satisfies `p`. */
  lemma {:induction false} FilterMembers<T(!new)>(p: T -> bool, s: seq<T>)
    ensures forall x :: x in Filter(p, s) <==> x in s && p(x)
  {
    if s != [] {
      FilterMembers(p, s[1..]);
      assert s == [s[0]] + s[1..];
    }
  }

  /** Filtering distributes over concatenation: the kept elements of a prefix
      come before the kept elements of the rest, so order is preserved. */
  lemma {:induction false} FilterAppend<T(!new)>(p: T -> bool, a: seq<T>, b: seq<T>)
    ensures Filter(p, a + b) == Filter(p, a) + Filter(p, b)
  {
    if a == [] {
      assert a + b == b;
    } else {
      assert (a + b)[1..] == a[1..] + b;
      FilterAppend(p, a[1..], b);
    }
  }

  /** Every element that satisfies `p` is kept as often as it occurs, every
      other element is dropped. */
  lemma {:induction false} FilterMultiplicity<T(!new)>(p: T -> bool, s: seq<T>, x: T)
    ensures multiset(Filter(p, s))[x] == if p(x) then multiset(s)[x] else 0
  {
    if s != [] {
      assert s == [s[0]] + s[1..];
      FilterMultiplicity(p, s[1..], x);
    }
  }

  /** Nothing is kept when no element satisfies `p`. */
  lemma FilterNone<T(!new)>(p: T -> bool, s: seq<T>)
    requires forall x :: x in s ==> !p(x)
    ensures Filter(p, s) == []
  {
    FilterMembers(p, s);
    if Filter(p, s) != [] {
      assert Filter(p, s)[0] in Filter(p, s);
    }
  }

  /** Everything is kept when every element satisfies `p`. */
  lemma FilterAll<T(!new)>(p: T -> bool, s: seq<T>)
    requires forall x :: x in s ==> p(x)
    ensures Filter(p, s) == s
  {
    if s != [] {
      assert s[0] in s;
      FilterAll(p, s[1..]);
    }
  }

  /** Appending one element adds it to the result exactly when it is kept. */
  lemma FilterSnoc<T(!new)>(p: T -> bool, s: seq<T>, x: T)
    ensures Filter(p, s + [x]) == if p(x) then Filter(p, s) + [x] else Filter(p, s)
  {
    FilterAppend(p, s, [x]);
    assert Filter(p, [x]) == (if p(x) then [x] else []) + Filter(p, []);
  }

}

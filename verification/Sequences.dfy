/** Small facts about sequences that several proofs share. */
module Sequences {
  lemma Regroup<T>(a: seq<T>, b: seq<T>, c: seq<T>)
    ensures (a + b) + c == a + (b + c)
  {
  }

  lemma CutAt<T>(s: seq<T>, start: nat, e: nat)
    requires start <= e < |s|
    ensures s[start..] == s[start..e] + [s[e]] + s[e + 1..]
  {
  }

  function Flat<T, U>(xs: seq<T>, f: T -> seq<U>): seq<U> {
    if xs == [] then [] else f(xs[0]) + Flat(xs[1..], f)
  }

  lemma FlatCons<T, U>(x: T, xs: seq<T>, f: T -> seq<U>)
    ensures Flat([x] + xs, f) == f(x) + Flat(xs, f)
  {
    assert ([x] + xs)[1..] == xs;
  }

  lemma {:induction false} FlatAppend<T, U>(a: seq<T>, b: seq<T>, f: T -> seq<U>)
    ensures Flat(a + b, f) == Flat(a, f) + Flat(b, f)
  {
    if a == [] {
      assert a + b == b;
    } else {
      assert (a + b)[1..] == a[1..] + b;
      FlatAppend(a[1..], b, f);
    }
  }

  /** The first position of `c`; the length of `s` when there is none. */
  function FirstOf<T(==)>(s: seq<T>, c: T): (i: nat)
    ensures i <= |s| && (i < |s| ==> s[i] == c) && forall j | 0 <= j < i :: s[j] != c
  {
    if s == [] || s[0] == c then 0 else 1 + FirstOf(s[1..], c)
  }

  predicate Distinct<T(==)>(s: seq<T>) {
    forall i, j | 0 <= i < j < |s| :: s[i] != s[j]
  }

  /** A list without duplicates is no longer than the set its elements come from. */
  lemma {:induction false} DistinctWithin<T>(s: seq<T>, bound: set<T>)
    requires Distinct(s) && forall i | 0 <= i < |s| :: s[i] in bound
    ensures |s| <= |bound|
  {
    if s == [] {
    } else {
      var last := s[|s| - 1];
      DistinctWithin(s[..|s| - 1], bound - {last});
    }
  }

  /** The list without every occurrence of one element. */
  function Without<T(==)>(s: seq<T>, x: T): seq<T> {
    if s == [] then []
    else if s[|s| - 1] == x then Without(s[..|s| - 1], x)
    else Without(s[..|s| - 1], x) + [s[|s| - 1]]
  }

  lemma {:induction false} WithoutNone<T>(s: seq<T>, x: T)
    requires x !in s
    ensures Without(s, x) == s
  {
    if s == [] {
    } else {
      assert s == s[..|s| - 1] + [s[|s| - 1]];
      WithoutNone(s[..|s| - 1], x);
    }
  }

  lemma {:induction false} WithoutAppend<T>(a: seq<T>, b: seq<T>, x: T)
    ensures Without(a + b, x) == Without(a, x) + Without(b, x)
  {
    if b == [] {
      assert a + b == a;
    } else {
      assert (a + b)[..|a + b| - 1] == a + b[..|b| - 1];
      WithoutAppend(a, b[..|b| - 1], x);
    }
  }

  /** The elements of the part stand, in the same order, at these positions of the whole. */
  ghost predicate StandsAt<T>(part: seq<T>, whole: seq<T>, at: seq<int>) {
    && |at| == |part| && (forall i | 0 <= i < |at| :: 0 <= at[i] < |whole| && whole[at[i]] == part[i])
    && (forall i, j | 0 <= i < j < |at| :: at[i] < at[j])
  }

  /** The positions are exactly those whose element passes a test. */
  ghost predicate ArePassing<T>(at: seq<int>, whole: seq<T>, test: T -> bool) {
    forall k | 0 <= k < |whole| :: k in at <==> test(whole[k])
  }

  /** One more element, which is kept or not. */
  lemma StandsNext<T>(part: seq<T>, whole: seq<T>, at: seq<int>, x: T, test: T -> bool)
    requires StandsAt(part, whole, at) && ArePassing(at, whole, test)
    ensures test(x) ==> StandsAt(part + [x], whole + [x], at + [|whole|]) && ArePassing(at + [|whole|], whole + [x], test)
    ensures !test(x) ==> StandsAt(part, whole + [x], at) && ArePassing(at, whole + [x], test)
  {
    assert |whole| !in at;
    assert (at + [|whole|])[|at|] == |whole|;
    forall k | 0 <= k < |whole|
      ensures k in at + [|whole|] <==> k in at
    {
    }
  }
}

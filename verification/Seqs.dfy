/**
 Sums and flat maps over sequences, and the fact everything else leans on: neither
 depends on the order of the sequence. A Go map range visits its keys in an arbitrary
 order, so each accumulator loop of the source is related to one of these.
 */
module Seqs {

  function Sum<T>(s: seq<T>, f: T -> int): int {
    if s == [] then 0 else f(s[0]) + Sum(s[1..], f)
  }

  function FlatMap<T, U>(s: seq<T>, f: T -> seq<U>): seq<U> {
    if s == [] then [] else f(s[0]) + FlatMap(s[1..], f)
  }

  lemma {:induction false} SumAppend<T>(s: seq<T>, t: seq<T>, f: T -> int)
    ensures Sum(s + t, f) == Sum(s, f) + Sum(t, f)
  {
    if s == [] {
      assert s + t == t;
    } else {
      assert (s + t)[1..] == s[1..] + t;
      SumAppend(s[1..], t, f);
    }
  }

  lemma {:induction false} FlatMapAppend<T, U>(s: seq<T>, t: seq<T>, f: T -> seq<U>)
    ensures FlatMap(s + t, f) == FlatMap(s, f) + FlatMap(t, f)
  {
    if s == [] {
      assert s + t == t;
    } else {
      assert (s + t)[1..] == s[1..] + t;
      FlatMapAppend(s[1..], t, f);
    }
  }

  lemma SumSingle<T>(x: T, f: T -> int)
    ensures Sum([x], f) == f(x)
  {
    assert Sum([x], f) == f(x) + Sum([x][1..], f);
  }

  /** One step of an accumulator loop. */
  lemma SumStep<T>(s: seq<T>, i: nat, f: T -> int)
    requires i < |s|
    ensures Sum(s[..i + 1], f) == Sum(s[..i], f) + f(s[i])
  {
    assert s[..i + 1] == s[..i] + [s[i]];
    SumAppend(s[..i], [s[i]], f);
  }

  lemma FlatMapStep<T, U>(s: seq<T>, i: nat, f: T -> seq<U>)
    requires i < |s|
    ensures FlatMap(s[..i + 1], f) == FlatMap(s[..i], f) + f(s[i])
  {
    assert s[..i + 1] == s[..i] + [s[i]];
    FlatMapAppend(s[..i], [s[i]], f);
    assert FlatMap([s[i]], f) == f(s[i]);
  }

  /** An element of a permutation can be moved to its front. */
  lemma SplitAt<T>(s: seq<T>, t: seq<T>) returns (l: seq<T>, r: seq<T>)
    requires s != [] && multiset(s) == multiset(t)
    ensures t == l + [s[0]] + r
    ensures multiset(s[1..]) == multiset(l + r)
  {
    assert s[0] in multiset(s);
    var i :| 0 <= i < |t| && t[i] == s[0];
    l, r := t[..i], t[i + 1..];
    assert t == l + [t[i]] + r;
    assert s == [s[0]] + s[1..];
    assert multiset(s[1..]) == multiset(s) - multiset{s[0]};
    assert multiset(l + r) == multiset(t) - multiset{s[0]};
  }

  /** A sum does not depend on the order of its terms. */
  lemma {:induction false} SumPermutation<T>(s: seq<T>, t: seq<T>, f: T -> int)
    requires multiset(s) == multiset(t)
    ensures Sum(s, f) == Sum(t, f)
    decreases |s|
  {
    if s == [] {
      assert |multiset(t)| == 0;
    } else {
      var l, r := SplitAt(s, t);
      SumPermutation(s[1..], l + r, f);
      SumAppend(l, r, f);
      SumAppend(l, [s[0]], f);
      SumAppend(l + [s[0]], r, f);
    }
  }

  /** Permuting the source of a flat map permutes its result. */
  lemma {:induction false} FlatMapPermutation<T, U>(s: seq<T>, t: seq<T>, f: T -> seq<U>)
    requires multiset(s) == multiset(t)
    ensures multiset(FlatMap(s, f)) == multiset(FlatMap(t, f))
    decreases |s|
  {
    if s == [] {
      assert |multiset(t)| == 0;
    } else {
      var l, r := SplitAt(s, t);
      FlatMapPermutation(s[1..], l + r, f);
      FlatMapAppend(l, r, f);
      FlatMapAppend(l, [s[0]], f);
      FlatMapAppend(l + [s[0]], r, f);
      assert FlatMap([s[0]], f) == f(s[0]);
    }
  }

  /** Re-indexing: summing over a flat map is summing the partial sums. */
  lemma {:induction false} SumFlatMap<T, U>(s: seq<T>, f: T -> seq<U>, g: U -> int, h: T -> int)
    requires forall x :: x in s ==> h(x) == Sum(f(x), g)
    ensures Sum(FlatMap(s, f), g) == Sum(s, h)
  {
    if s != [] {
      SumAppend(f(s[0]), FlatMap(s[1..], f), g);
      SumFlatMap(s[1..], f, g, h);
    }
  }

  lemma {:induction false} SumMonotone<T>(s: seq<T>, f: T -> int, g: T -> int)
    requires forall x :: x in s ==> f(x) <= g(x)
    ensures Sum(s, f) <= Sum(s, g)
  {
    if s != [] {
      SumMonotone(s[1..], f, g);
    }
  }

  lemma SumCongruent<T>(s: seq<T>, f: T -> int, g: T -> int)
    requires forall x :: x in s ==> f(x) == g(x)
    ensures Sum(s, f) == Sum(s, g)
  {
    SumMonotone(s, f, g);
    SumMonotone(s, g, f);
  }

  lemma {:induction false} SumNonNegative<T>(s: seq<T>, f: T -> int)
    requires forall x :: x in s ==> f(x) >= 0
    ensures Sum(s, f) >= 0
    ensures forall x :: x in s ==> f(x) <= Sum(s, f)
  {
    if s != [] {
      SumNonNegative(s[1..], f);
      assert s == [s[0]] + s[1..];
    }
  }

  lemma {:induction false} InFlatMap<T, U>(s: seq<T>, f: T -> seq<U>, y: U)
    ensures y in FlatMap(s, f) <==> exists x :: x in s && y in f(x)
  {
    if s != [] {
      InFlatMap(s[1..], f, y);
      assert s == [s[0]] + s[1..];
    }
  }

  /** Some enumeration of a finite set; which one is left open. */
  ghost function Listing<T>(s: set<T>): (r: seq<T>)
    ensures multiset(r) == multiset(s)
  {
    if s == {} then []
    else
      var x :| x in s;
      assert multiset(s) == multiset(s - {x}) + multiset{x};
      [x] + Listing(s - {x})
  }

  lemma ListingMembers<T(!new)>(s: set<T>)
    ensures forall x :: x in Listing(s) <==> x in s
    ensures |Listing(s)| == |s|
  {
    var l := Listing(s);
    assert forall x :: x in l <==> x in multiset(l);
    assert |l| == |multiset(l)| == |multiset(s)|;
  }

  /** Sum over a finite set, in no particular order. */
  ghost function Total<T>(s: set<T>, f: T -> int): int {
    Sum(Listing(s), f)
  }

  lemma TotalAdd<T>(s: set<T>, x: T, f: T -> int)
    requires x !in s
    ensures Total(s + {x}, f) == Total(s, f) + f(x)
  {
    var l := Listing(s) + [x];
    assert multiset(s + {x}) == multiset(s) + multiset{x};
    SumPermutation(Listing(s + {x}), l, f);
    SumAppend(Listing(s), [x], f);
    assert Sum([x], f) == f(x) + Sum([], f);
  }

  lemma TotalEmpty<T>(f: T -> int)
    ensures Total({}, f) == 0
  {
  }
}

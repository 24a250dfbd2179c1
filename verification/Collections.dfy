/** Sequences without repetition and multisets of mapped sequences. */
module Collections {

  ghost predicate NoDup<T>(s: seq<T>) {
    forall i, j :: 0 <= i < j < |s| ==> s[i] != s[j]
  }

  function MapSeq<T, U>(xs: seq<T>, f: T -> U): seq<U> {
    seq(|xs|, k requires 0 <= k < |xs| => f(xs[k]))
  }

  lemma NoDupConcat<T>(a: seq<T>, b: seq<T>)
    requires NoDup(a) && NoDup(b)
    requires forall x <- a :: x !in b
    ensures NoDup(a + b)
  {
    forall i, j | 0 <= i < j < |a + b|
      ensures (a + b)[i] != (a + b)[j]
    {
      if i < |a| <= j {
        assert (a + b)[j] == b[j - |a|];
        assert a[i] in a;
      }
    }
  }

  lemma {:induction false} NoDupCount<T>(xs: seq<T>, x: T)
    requires NoDup(xs)
    ensures multiset(xs)[x] == if x in xs then 1 else 0
  {
    if xs != [] {
      NoDupCount(xs[1..], x);
      assert xs == [xs[0]] + xs[1..];
    }
  }

  lemma {:induction false} NoDupFromCounts<T>(xs: seq<T>)
    requires forall x :: multiset(xs)[x] <= 1
    ensures NoDup(xs)
  {
    if xs != [] {
      var rest := xs[1..];
      assert xs == [xs[0]] + rest;
      assert multiset(xs) == multiset{xs[0]} + multiset(rest);
      assert xs[0] !in rest by {
        assert multiset(xs)[xs[0]] == 1 + multiset(rest)[xs[0]];
      }
      forall x
        ensures multiset(rest)[x] <= 1
      {
        assert multiset(xs)[x] <= 1;
      }
      NoDupFromCounts(rest);
      NoDupConcat([xs[0]], rest);
    }
  }

  /** Two repetition-free sequences with the same elements are permutations of each other. */
  lemma SameMultiset<T>(xs: seq<T>, ys: seq<T>)
    requires NoDup(xs) && NoDup(ys)
    requires forall x :: x in xs <==> x in ys
    ensures multiset(xs) == multiset(ys)
  {
    forall x
      ensures multiset(xs)[x] == multiset(ys)[x]
    {
      NoDupCount(xs, x);
      NoDupCount(ys, x);
    }
  }

  /** A permutation has the same length and, without repetition, stays repetition-free. */
  lemma {:induction false} NoDupCardinality<T>(xs: seq<T>, s: set<T>)
    requires NoDup(xs)
    requires forall x :: x in xs <==> x in s
    ensures |xs| == |s|
  {
    if xs == [] {
      assert s == {};
    } else {
      NoDupCardinality(xs[1..], s - {xs[0]});
    }
  }

  function Range(n: nat): (s: set<nat>)
    ensures forall i :: i in s <==> 0 <= i < n
    ensures |s| == n
  {
    if n == 0 then {} else Range(n - 1) + {n - 1}
  }

  function Elements<T>(s: seq<T>): set<T> {
    set x | x in s
  }

  lemma AddOne<T>(s: set<T>, x: T)
    ensures |s + {x}| == if x in s then |s| else |s| + 1
  {
    if x in s {
      assert s + {x} == s;
    }
  }

  lemma SubsetSize<T>(a: set<T>, b: set<T>)
    requires a <= b
    ensures |a| <= |b|
    ensures |a| == |b| ==> a == b
  {
    assert b == a + (b - a);
    if |a| == |b| {
      assert |b - a| == 0;
    }
  }

  /** Some index below `n` is outside both a repetition-free sequence and a set exactly when
      the two are disjoint and together have fewer than `n` members. */
  lemma PlacedCount(n: nat, order: seq<nat>, others: set<nat>)
    requires NoDup(order)
    requires forall i <- order :: i < n && i !in others
    requires forall i <- others :: i < n
    ensures |order| + |others| < n <==> exists j :: 0 <= j < n && j !in order && j !in others
  {
    var placed := Elements(order) + others;
    NoDupCardinality(order, Elements(order));
    assert |placed| == |order| + |others|;
    SubsetSize(placed, Range(n));
    if |order| + |others| < n && forall j :: 0 <= j < n ==> j in order || j in others {
      assert Range(n) <= placed;
      SubsetSize(Range(n), placed);
    }
  }

  function Without<T>(s: seq<T>, k: nat): seq<T>
    requires k < |s|
  {
    s[..k] + s[k + 1..]
  }

  lemma WithoutMultiset<T>(s: seq<T>, k: nat)
    requires k < |s|
    ensures multiset(s) == multiset{s[k]} + multiset(Without(s, k))
  {
    assert s == s[..k] + [s[k]] + s[k + 1..];
  }

  /** Without a member that occurs once, the others are left, once each. */
  lemma WithoutMembers<T>(s: seq<T>, k: nat, x: T)
    requires NoDup(s) && k < |s|
    ensures x in Without(s, k) <==> x in s && x != s[k]
  {
    var rest := Without(s, k);
    if x in rest {
      var m :| 0 <= m < |rest| && rest[m] == x;
      assert x == s[if m < k then m else m + 1];
    }
    if x in s && x != s[k] {
      var m :| 0 <= m < |s| && s[m] == x;
      assert rest[if m < k then m else m - 1] == x;
    }
  }

  lemma WithoutNoDup<T>(s: seq<T>, k: nat)
    requires NoDup(s) && k < |s|
    ensures NoDup(Without(s, k))
  {
    var rest := Without(s, k);
    forall i, j | 0 <= i < j < |rest|
      ensures rest[i] != rest[j]
    {
      var p, q := if i < k then i else i + 1, if j < k then j else j + 1;
      assert rest[i] == s[p] && rest[j] == s[q];
    }
  }

  lemma WithoutMap<T, U>(s: seq<T>, k: nat, f: T -> U)
    requires k < |s|
    ensures Without(MapSeq(s, f), k) == MapSeq(Without(s, k), f)
  {
  }

  lemma {:induction false} MultisetOfMap<T, U>(xs: seq<T>, ys: seq<T>, f: T -> U)
    requires multiset(xs) == multiset(ys)
    ensures multiset(MapSeq(xs, f)) == multiset(MapSeq(ys, f))
  {
    if xs == [] {
      assert |ys| == |multiset(ys)| == 0;
    } else {
      assert xs[0] in multiset(ys);
      var k :| 0 <= k < |ys| && ys[k] == xs[0];
      WithoutMultiset(xs, 0);
      WithoutMultiset(ys, k);
      assert multiset(Without(xs, 0)) == multiset(xs) - multiset{xs[0]};
      assert multiset(Without(ys, k)) == multiset(ys) - multiset{xs[0]};
      MultisetOfMap(Without(xs, 0), Without(ys, k), f);
      WithoutMap(xs, 0, f);
      WithoutMap(ys, k, f);
      WithoutMultiset(MapSeq(xs, f), 0);
      WithoutMultiset(MapSeq(ys, f), k);
    }
  }

  function Total<T>(xs: seq<T>, f: T -> int): int {
    if xs == [] then 0 else Total(xs[..|xs| - 1], f) + f(xs[|xs| - 1])
  }

  lemma {:induction false} TotalWithout<T>(xs: seq<T>, f: T -> int, k: nat)
    requires k < |xs|
    ensures Total(xs, f) == Total(Without(xs, k), f) + f(xs[k])
  {
    var n := |xs| - 1;
    if k < n {
      TotalWithout(xs[..n], f, k);
      assert Without(xs, k)[..n - 1] == Without(xs[..n], k);
    } else {
      assert Without(xs, k) == xs[..n];
    }
  }

  /** A total does not depend on the order. */
  lemma {:induction false} TotalOfMultiset<T>(xs: seq<T>, ys: seq<T>, f: T -> int)
    requires multiset(xs) == multiset(ys)
    ensures Total(xs, f) == Total(ys, f)
  {
    if xs == [] {
      assert |ys| == |multiset(ys)| == 0;
    } else {
      assert xs[0] in multiset(ys);
      var k :| 0 <= k < |ys| && ys[k] == xs[0];
      WithoutMultiset(xs, 0);
      WithoutMultiset(ys, k);
      assert multiset(Without(xs, 0)) == multiset(xs) - multiset{xs[0]};
      assert multiset(Without(ys, k)) == multiset(ys) - multiset{xs[0]};
      TotalOfMultiset(Without(xs, 0), Without(ys, k), f);
      TotalWithout(xs, f, 0);
      TotalWithout(ys, f, k);
    }
  }

  lemma {:induction false} TotalOfMap<T, U>(xs: seq<T>, f: T -> U, g: U -> int, h: T -> int)
    requires forall x <- xs :: h(x) == g(f(x))
    ensures Total(MapSeq(xs, f), g) == Total(xs, h)
  {
    if xs != [] {
      var n := |xs| - 1;
      assert MapSeq(xs, f)[..n] == MapSeq(xs[..n], f);
      TotalOfMap(xs[..n], f, g, h);
    }
  }

  lemma {:induction false} TotalAtMost<T>(xs: seq<T>, f: T -> int, g: T -> int)
    requires forall x <- xs :: f(x) <= g(x)
    ensures Total(xs, f) <= Total(xs, g)
  {
    if xs != [] {
      TotalAtMost(xs[..|xs| - 1], f, g);
    }
  }

  lemma TotalLess<T>(xs: seq<T>, f: T -> int, g: T -> int, x: T)
    requires (forall y <- xs :: f(y) <= g(y)) && x in xs && f(x) < g(x)
    ensures Total(xs, f) < Total(xs, g)
  {
    var k :| 0 <= k < |xs| && xs[k] == x;
    TotalWithout(xs, f, k);
    TotalWithout(xs, g, k);
    TotalAtMost(Without(xs, k), f, g);
  }

  function FirstIndex(s: string, c: char): nat {
    if s == [] || s[0] == c then 0 else 1 + FirstIndex(s[1..], c)
  }

  lemma {:induction false} FirstIndexAfter(c: char, a: string, x: string)
    requires c !in a
    ensures FirstIndex(a + [c] + x, c) == |a|
  {
    if a == [] {
      assert (a + [c] + x)[0] == c;
    } else {
      assert (a + [c] + x)[1..] == a[1..] + [c] + x;
      FirstIndexAfter(c, a[1..], x);
    }
  }

  /** Two texts without a separator that are followed by one can be told apart from what comes after. */
  lemma SplitAt(c: char, a: string, b: string, x: string, y: string)
    requires c !in a && c !in b
    requires a + [c] + x == b + [c] + y
    ensures a == b && x == y
  {
    FirstIndexAfter(c, a, x);
    FirstIndexAfter(c, b, y);
    var s, t := a + [c] + x, b + [c] + y;
    assert a == s[..|a|] && b == t[..|b|];
    assert x == s[|a| + 1..] && y == t[|b| + 1..];
  }
}

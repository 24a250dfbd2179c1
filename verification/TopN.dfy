/** ORDER BY with LIMIT through a bounded heap, against sorting everything and slicing. */
module TopN {
  import opened Collections
  import opened Values
  import opened SortOrder

  /** Compares two row numbers by their sort keys. */
  type Order = (nat, nat) -> bool

  /** On the rows below `n`, `less` is a strict weak order. */
  ghost predicate StrictWeakOrder(less: Order, n: nat) {
    && (forall i: nat, j: nat | i < n && j < n :: less(i, j) ==> !less(j, i))
    && forall i: nat, j: nat, k: nat | i < n && j < n && k < n :: NotAfterChains(less, i, j, k)
  }

  predicate NotAfterChains(less: Order, i: nat, j: nat, k: nat) {
    !less(j, i) && !less(k, j) ==> !less(k, i)
  }

  lemma Chain(less: Order, n: nat, i: nat, j: nat, k: nat)
    requires StrictWeakOrder(less, n) && i < n && j < n && k < n
    requires !less(j, i) && !less(k, j)
    ensures !less(k, i)
  {
    assert NotAfterChains(less, i, j, k);
  }

  ghost predicate Below(idx: seq<nat>, n: nat) {
    forall i <- idx :: i < n
  }

  // ---- sorting ----

  ghost predicate Sorted(less: Order, s: seq<nat>) {
    forall p, q :: 0 <= p < q < |s| ==> !less(s[q], s[p])
  }

  /** sort.Slice: some sorted permutation. */
  method SortSlice(less: Order, ghost n: nat, s: seq<nat>) returns (sorted: seq<nat>)
    requires StrictWeakOrder(less, n) && Below(s, n)
    ensures Sorted(less, sorted) && multiset(sorted) == multiset(s)
  {
    sorted := [];
    for i := 0 to |s|
      invariant Sorted(less, sorted) && multiset(sorted) == multiset(s[..i])
    {
      assert s[..i + 1] == s[..i] + [s[i]];
      assert s[i] in s && forall x <- s[..i] :: x in s;
      BelowPermutation(s[..i], sorted, n);
      var p := |sorted|;
      while p > 0 && less(s[i], sorted[p - 1])
        invariant 0 <= p <= |sorted|
        invariant forall q :: p <= q < |sorted| ==> less(s[i], sorted[q])
      {
        p := p - 1;
      }
      InsertSorted(less, n, sorted, p, s[i]);
      sorted := sorted[..p] + [s[i]] + sorted[p..];
    }
    assert s[..|s|] == s;
  }

  lemma BelowPermutation(s: seq<nat>, t: seq<nat>, n: nat)
    requires Below(s, n) && multiset(s) == multiset(t)
    ensures Below(t, n)
  {
    forall i <- t
      ensures i < n
    {
      assert i in multiset(t) && i in s;
    }
  }

  lemma InsertSorted(less: Order, n: nat, s: seq<nat>, p: nat, x: nat)
    requires StrictWeakOrder(less, n) && Below(s, n) && x < n
    requires Sorted(less, s) && p <= |s|
    requires forall q :: p <= q < |s| ==> less(x, s[q])
    requires p > 0 ==> !less(x, s[p - 1])
    ensures Sorted(less, s[..p] + [x] + s[p..])
    ensures multiset(s[..p] + [x] + s[p..]) == multiset(s) + multiset{x}
  {
    NotAfterLast(less, n, s, p, x);
    SortedConcat(less, s[..p], [x]);
    RestIsAfter(less, n, s, p, x);
    SortedConcat(less, s[..p] + [x], s[p..]);
    InsertedMembers(s, p, x);
  }

  lemma InsertedMembers(s: seq<nat>, p: nat, x: nat)
    requires p <= |s|
    ensures multiset(s[..p] + [x] + s[p..]) == multiset(s) + multiset{x}
  {
    assert s == s[..p] + s[p..];
  }

  lemma NotAfterLast(less: Order, n: nat, s: seq<nat>, p: nat, x: nat)
    requires StrictWeakOrder(less, n) && Below(s, n) && x < n
    requires Sorted(less, s) && p <= |s| && (p > 0 ==> !less(x, s[p - 1]))
    ensures forall a <- s[..p] :: !less(x, a)
  {
    forall a <- s[..p]
      ensures !less(x, a)
    {
      assert a in s && s[p - 1] in s;
      if a != s[p - 1] {
        Chain(less, n, a, s[p - 1], x);
      }
    }
  }

  lemma RestIsAfter(less: Order, n: nat, s: seq<nat>, p: nat, x: nat)
    requires StrictWeakOrder(less, n) && Below(s, n) && x < n
    requires Sorted(less, s) && p <= |s|
    requires forall q :: p <= q < |s| ==> less(x, s[q])
    ensures forall a, b | a in s[..p] + [x] && b in s[p..] :: !less(b, a)
  {
    forall a, b | a in s[..p] + [x] && b in s[p..]
      ensures !less(b, a)
    {
      assert b in s;
    }
  }

  lemma SortedConcat(less: Order, s: seq<nat>, t: seq<nat>)
    requires Sorted(less, s) && Sorted(less, t)
    requires forall a, b | a in s && b in t :: !less(b, a)
    ensures Sorted(less, s + t)
  {
  }

  // ---- the bounded heap ----

  function Parent(c: nat): nat {
    if c == 0 then 0 else (c - 1) / 2
  }

  class TopNHeap {
    const less: Order
    ghost const n: nat
    var idx: seq<nat>

    constructor (less: Order, ghost n: nat)
      requires StrictWeakOrder(less, n)
      ensures this.less == less && this.n == n && idx == [] && Valid()
    {
      this.less, this.n, idx := less, n, [];
    }

    ghost predicate InRange()
      reads this
    {
      StrictWeakOrder(less, n) && Below(idx, n)
    }

    /** The row at `c` does not sort after its parent. */
    ghost predicate UnderParent(c: nat)
      reads this
      requires c < |idx|
    {
      c > 0 ==> !less(idx[Parent(c)], idx[c])
    }

    /** A child of `hole` does not sort after the parent of `hole`. */
    ghost predicate UnderGrandparent(hole: nat, c: nat)
      reads this
      requires c < |idx| && hole < |idx|
    {
      hole > 0 && c > 0 && Parent(c) == hole ==> !less(idx[Parent(hole)], idx[c])
    }

    /** A max-heap on the row numbers. */
    ghost predicate Valid()
      reads this
    {
      InRange() && forall c: nat | c < |idx| :: UnderParent(c)
    }

    /** A heap, but for the pair of `hole` and its parent. */
    ghost predicate HeapAbove(hole: nat)
      reads this
    {
      && InRange() && hole < |idx|
      && (forall c: nat | c < |idx| && c != hole :: UnderParent(c))
      && forall c: nat | c < |idx| :: UnderGrandparent(hole, c)
    }

    /** A heap, but for the pairs of `hole` and its children. */
    ghost predicate HeapBelow(hole: nat)
      reads this
    {
      && InRange() && hole < |idx|
      && (forall c: nat | c < |idx| && (c == 0 || Parent(c) != hole) :: UnderParent(c))
      && forall c: nat | c < |idx| :: UnderGrandparent(hole, c)
    }

    lemma Held(c: nat)
      requires InRange() && c < |idx|
      ensures idx[c] < n
    {
      assert idx[c] in idx;
    }

    /** No row of a heap sorts after the root. */
    lemma RootIsLast(c: nat)
      requires Valid() && c < |idx|
      ensures !less(idx[0], idx[c])
    {
      Held(0);
      Held(c);
      if c > 0 {
        RootIsLast(Parent(c));
        Held(Parent(c));
        assert UnderParent(c);
        Chain(less, n, idx[c], idx[Parent(c)], idx[0]);
      }
    }

    method Swap(i: nat, j: nat)
      requires i < |idx| && j < |idx|
      modifies this
      ensures idx == old(idx)[i := old(idx)[j]][j := old(idx)[i]]
      ensures multiset(idx) == multiset(old(idx))
      ensures Below(old(idx), n) ==> Below(idx, n)
    {
      idx := idx[i := idx[j]][j := idx[i]];
      assert forall x :: x in idx ==> x in old(idx);
    }

    /** container/heap's up. */
    method Up(start: nat)
      requires HeapAbove(start)
      modifies this
      ensures Valid() && multiset(idx) == multiset(old(idx))
    {
      var j := start;
      while j > 0 && less(idx[(j - 1) / 2], idx[j])
        invariant 0 <= j < |idx| && HeapAbove(j)
        invariant multiset(idx) == multiset(old(idx))
        decreases j
      {
        StepUp(j);
        j := (j - 1) / 2;
      }
      assert UnderParent(j);
    }

    /** What the heap around `hole` says before the hole's row and its smaller parent change places. */
    lemma AroundHole(j: nat, c: nat)
      requires 0 < j && HeapAbove(j) && less(idx[Parent(j)], idx[j])
      requires 0 < c < |idx|
      ensures idx[c] < n
      ensures c != j ==> !less(idx[Parent(c)], idx[c])
      ensures Parent(c) == j ==> !less(idx[Parent(j)], idx[c])
      ensures c != j && Parent(c) == Parent(j) ==> !less(idx[j], idx[c])
      ensures Parent(j) > 0 && c != j && Parent(c) == Parent(j) ==> !less(idx[Parent(Parent(j))], idx[c])
    {
      var i := Parent(j);
      Held(i);
      Held(j);
      Held(c);
      Held(Parent(c));
      assert c != j ==> UnderParent(c);
      assert UnderGrandparent(j, c);
      if c != j && Parent(c) == i {
        Chain(less, n, idx[c], idx[i], idx[j]);
        if i > 0 {
          assert UnderParent(i);
          Held(Parent(i));
          Chain(less, n, idx[c], idx[i], idx[Parent(i)]);
        }
      }
    }

    method StepUp(j: nat)
      requires 0 < j && HeapAbove(j) && less(idx[Parent(j)], idx[j])
      modifies this
      ensures HeapAbove(Parent(j)) && |idx| == old(|idx|) && multiset(idx) == multiset(old(idx))
    {
      ghost var was := idx;
      var i := Parent(j);
      Held(i);
      Held(j);
      forall c: nat | c < |was| && c > 0
        ensures c != j ==> !less(was[Parent(c)], was[c])
        ensures Parent(c) == j ==> !less(was[i], was[c])
        ensures c != j && Parent(c) == i ==> !less(was[j], was[c])
        ensures i > 0 && c != j && Parent(c) == i ==> !less(was[Parent(i)], was[c])
      {
        AroundHole(j, c);
      }
      Swap(i, j);
    }

    /** container/heap's Push. */
    method Push(x: nat)
      requires Valid() && x < n
      modifies this
      ensures Valid() && multiset(idx) == multiset(old(idx)) + multiset{x}
    {
      idx := idx + [x];
      forall c: nat | c < |idx| - 1
        ensures UnderParent(c)
      {
        assert old(UnderParent(c));
      }
      Up(|idx| - 1);
    }

    /** container/heap's down. */
    method Down(start: nat)
      requires HeapBelow(start) && start == 0
      modifies this
      ensures Valid() && multiset(idx) == multiset(old(idx))
    {
      var i := start;
      while true
        invariant 0 <= i < |idx| && HeapBelow(i)
        invariant multiset(idx) == multiset(old(idx)) && |idx| == old(|idx|)
        decreases |idx| - i
      {
        var j1 := 2 * i + 1;
        if j1 >= |idx| {
          assert forall c: nat | c < |idx| :: UnderParent(c);
          break;
        }
        var j := j1;
        if j1 + 1 < |idx| && less(idx[j1], idx[j1 + 1]) {
          j := j1 + 1;
        }
        Held(j1);
        Held(j);
        ghost var last := j;
        assert forall c: nat | c < |idx| :: LastChild(i, last, c);
        if !less(idx[i], idx[j]) {
          Settled(i, j);
          break;
        }
        StepDown(i, j);
        i := j;
      }
    }

    /** No child of `i` sorts after the row at `j`. */
    ghost predicate LastChild(i: nat, j: nat, c: nat)
      reads this
      requires j < |idx| && c < |idx|
    {
      c > 0 && Parent(c) == i ==> !less(idx[j], idx[c])
    }

    lemma Settled(i: nat, j: nat)
      requires HeapBelow(i) && j < |idx| && !less(idx[i], idx[j])
      requires forall c: nat | c < |idx| :: LastChild(i, j, c)
      ensures Valid()
    {
      Held(i);
      Held(j);
      forall c: nat | c < |idx|
        ensures UnderParent(c)
      {
        Held(c);
        if c > 0 && Parent(c) == i {
          assert LastChild(i, j, c);
          Chain(less, n, idx[c], idx[j], idx[i]);
        }
      }
    }

    method StepDown(i: nat, j: nat)
      requires HeapBelow(i) && 0 < j < |idx| && Parent(j) == i && less(idx[i], idx[j])
      requires forall c: nat | c < |idx| :: LastChild(i, j, c)
      modifies this
      ensures HeapBelow(j) && |idx| == old(|idx|) && multiset(idx) == multiset(old(idx))
    {
      ghost var was := idx;
      Held(i);
      Held(j);
      forall c: nat | c < |was| && c > 0
        ensures was[c] < n
        ensures Parent(c) != i ==> !less(was[Parent(c)], was[c])
        ensures Parent(c) == i ==> !less(was[j], was[c])
      {
        Held(c);
        assert Parent(c) != i ==> UnderParent(c);
        assert LastChild(i, j, c);
      }
      assert UnderGrandparent(i, j);
      Swap(i, j);
    }

    /** Replaces the root and restores the heap: container/heap's Fix at 0. */
    method ReplaceRoot(x: nat)
      requires Valid() && idx != [] && x < n
      modifies this
      ensures Valid() && multiset(idx) == multiset(old(idx)) - multiset{old(idx)[0]} + multiset{x}
    {
      ghost var was := idx;
      idx := idx[0 := x];
      assert was == [was[0]] + was[1..] && idx == [x] + was[1..];
      assert forall y <- idx :: y in was || y == x;
      forall c: nat | c < |idx| && (c == 0 || Parent(c) != 0)
        ensures UnderParent(c)
      {
        assert old(UnderParent(c));
      }
      Down(0);
    }
  }

  // ---- selecting the first k ----

  /** All row numbers in order. */
  function Rows(n: nat): (s: seq<nat>)
    ensures |s| == n && forall i :: 0 <= i < n ==> s[i] == i
  {
    seq(n, i => i)
  }

  /** `order` lists every row once, sorted. */
  ghost predicate FullSort(less: Order, n: nat, order: seq<nat>) {
    Sorted(less, order) && multiset(order) == multiset(Rows(n))
  }

  method SortKeyOrder(less: Order, n: nat) returns (order: seq<nat>)
    requires StrictWeakOrder(less, n)
    ensures FullSort(less, n, order)
  {
    order := SortSlice(less, n, Rows(n));
  }

  /** `held` are distinct rows below `seen`, and no other row below `seen` sorts before one of them. */
  ghost predicate Selects(less: Order, held: seq<nat>, seen: nat) {
    && NoDup(held)
    && Below(held, seen)
    && forall m: nat, h: nat | m < seen && m !in held && h in held :: !less(m, h)
  }

  /** topNKeyOrder. */
  method TopNKeyOrder(less: Order, n: nat, k: int) returns (selected: seq<nat>)
    requires StrictWeakOrder(less, n)
    ensures Selects(less, selected, n) && Sorted(less, selected)
    ensures |selected| == if k <= 0 then 0 else if k < n then k else n
  {
    if k <= 0 {
      return [];
    }
    if k >= n {
      selected := SortKeyOrder(less, n);
      SortSelects(less, n, selected);
      return;
    }
    var h := new TopNHeap(less, n);
    for i := 0 to n
      invariant fresh(h) && h.less == less && h.n == n && h.Valid()
      invariant |h.idx| == if i < k then i else k
      invariant Selects(less, h.idx, i)
      invariant i <= k ==> forall m: nat | m < i :: m in h.idx
    {
      ghost var was := h.idx;
      if |h.idx| < k {
        h.Push(i);
        Grown(less, was, h.idx, i);
      } else if less(i, h.idx[0]) {
        RootLast(h);
        h.ReplaceRoot(i);
        Replaced(less, n, was, h.idx, i);
      } else {
        RootLast(h);
        Omitted(less, n, was, i);
      }
    }
    selected := SortSlice(less, n, h.idx);
    Permuted(less, h.idx, selected, n);
  }

  lemma RootLast(h: TopNHeap)
    requires h.Valid()
    ensures forall x <- h.idx :: !h.less(h.idx[0], x)
  {
    forall c | 0 <= c < |h.idx|
      ensures !h.less(h.idx[0], h.idx[c])
    {
      h.RootIsLast(c);
    }
  }

  lemma MultisetMembers(s: seq<nat>, t: seq<nat>)
    requires multiset(s) == multiset(t)
    ensures forall x :: x in s <==> x in t
    ensures NoDup(s) ==> NoDup(t)
  {
    forall x
      ensures x in s <==> x in t
    {
      assert x in s <==> x in multiset(s);
      assert x in t <==> x in multiset(t);
    }
    if NoDup(s) {
      forall x
        ensures multiset(t)[x] <= 1
      {
        NoDupCount(s, x);
      }
      NoDupFromCounts(t);
    }
  }

  lemma Permuted(less: Order, s: seq<nat>, t: seq<nat>, seen: nat)
    requires Selects(less, s, seen) && multiset(s) == multiset(t)
    ensures Selects(less, t, seen) && |t| == |s|
  {
    MultisetMembers(s, t);
    assert |multiset(s)| == |s| && |multiset(t)| == |t|;
  }

  lemma SortSelects(less: Order, n: nat, order: seq<nat>)
    requires FullSort(less, n, order)
    ensures Selects(less, order, n) && |order| == n
    ensures forall m: nat | m < n :: m in order
  {
    assert |multiset(order)| == |order| && |multiset(Rows(n))| == n;
    MultisetMembers(Rows(n), order);
    forall m: nat | m < n
      ensures m in order
    {
      assert Rows(n)[m] == m && m in Rows(n);
    }
  }

  lemma Grown(less: Order, was: seq<nat>, held: seq<nat>, i: nat)
    requires Selects(less, was, i) && forall m: nat | m < i :: m in was
    requires multiset(held) == multiset(was) + multiset{i}
    ensures Selects(less, held, i + 1) && |held| == |was| + 1
    ensures forall m: nat | m < i + 1 :: m in held
  {
    NoDupConcat(was, [i]);
    assert multiset(was + [i]) == multiset(held);
    Permuted(less, was + [i], held, i + 1);
    MultisetMembers(was + [i], held);
  }

  lemma Replaced(less: Order, n: nat, was: seq<nat>, held: seq<nat>, i: nat)
    requires StrictWeakOrder(less, n) && i < n && was != []
    requires Selects(less, was, i) && less(i, was[0]) && forall x <- was :: !less(was[0], x)
    requires multiset(held) == multiset(was) - multiset{was[0]} + multiset{i}
    ensures Selects(less, held, i + 1) && |held| == |was|
  {
    assert was == [was[0]] + was[1..];
    assert multiset(held) == multiset(was[1..] + [i]);
    RootReplaced(less, n, was, i);
    Permuted(less, was[1..] + [i], held, i + 1);
  }

  lemma RootReplaced(less: Order, n: nat, was: seq<nat>, i: nat)
    requires StrictWeakOrder(less, n) && i < n && was != []
    requires Selects(less, was, i) && less(i, was[0]) && forall x <- was :: !less(was[0], x)
    ensures Selects(less, was[1..] + [i], i + 1)
  {
    var next := was[1..] + [i];
    forall x <- was[1..]
      ensures x in was && x !in [i] && x != was[0]
    {
      var p :| 0 <= p < |was[1..]| && was[1..][p] == x;
      assert was[p + 1] == x;
    }
    NoDupConcat(was[1..], [i]);
    forall m: nat, h: nat | m < i + 1 && m !in next && h in next
      ensures !less(m, h)
    {
      assert m == was[0] || m !in was by {
        assert was == [was[0]] + was[1..];
      }
      ReplacedPair(less, n, was, i, m, h);
    }
  }

  lemma ReplacedPair(less: Order, n: nat, was: seq<nat>, i: nat, m: nat, h: nat)
    requires StrictWeakOrder(less, n) && i < n && was != []
    requires Selects(less, was, i) && less(i, was[0]) && forall x <- was :: !less(was[0], x)
    requires h == i || h in was
    requires m < i && (m == was[0] || m !in was)
    ensures !less(m, h)
  {
    assert was[0] in was;
    if h == i && m != was[0] {
      Chain(less, n, i, was[0], m);
    }
  }

  lemma Omitted(less: Order, n: nat, was: seq<nat>, i: nat)
    requires StrictWeakOrder(less, n) && i < n && was != []
    requires Selects(less, was, i) && !less(i, was[0]) && forall x <- was :: !less(was[0], x)
    ensures Selects(less, was, i + 1)
  {
    assert was[0] in was;
    forall h <- was
      ensures !less(i, h)
    {
      Chain(less, n, h, was[0], i);
    }
  }

  // ---- the same keys as a full sort ----

  /** The rows neither sorts before the other: they have equal keys as far as ORDER BY can tell. */
  predicate Ties(less: Order, i: nat, j: nat) {
    !less(i, j) && !less(j, i)
  }

  ghost predicate SameKeys(less: Order, s: seq<nat>, t: seq<nat>) {
    |s| == |t| && forall p :: 0 <= p < |s| ==> Ties(less, s[p], t[p])
  }

  /** The first p + 1 entries of a sequence without repetition are not all among p others. */
  lemma Pigeonhole(s: seq<nat>, t: seq<nat>, p: nat) returns (x: nat)
    requires NoDup(s) && p < |s| && p <= |t|
    ensures x in s[..p + 1] && x !in t[..p]
  {
    var few := s[..p + 1];
    NoDupCardinality(few, Elements(few));
    FewElements(t[..p]);
    if Elements(few) <= Elements(t[..p]) {
      SubsetSize(Elements(few), Elements(t[..p]));
    }
    x :| x in Elements(few) && x !in Elements(t[..p]);
  }

  lemma {:induction false} FewElements<T>(s: seq<T>)
    ensures |Elements(s)| <= |s|
  {
    if s != [] {
      var n := |s| - 1;
      FewElements(s[..n]);
      assert s == s[..n] + [s[n]];
      assert Elements(s) == Elements(s[..n]) + {s[n]};
      AddOne(Elements(s[..n]), s[n]);
    }
  }

  /** Every selection in sorted order has the keys of the full sort's beginning. */
  lemma SelectionMatchesSort(less: Order, n: nat, selected: seq<nat>, order: seq<nat>)
    requires StrictWeakOrder(less, n)
    requires Selects(less, selected, n) && Sorted(less, selected)
    requires Selects(less, order, n) && Sorted(less, order) && |selected| <= |order|
    requires forall m: nat | m < n :: m in order
    ensures SameKeys(less, selected, order[..|selected|])
  {
    forall p | 0 <= p < |selected|
      ensures Ties(less, selected[p], order[p])
    {
      assert selected[p] in selected && order[p] in order;
      NotEarlier(less, n, selected, order, p);
      NotEarlier(less, n, order, selected, p);
    }
  }

  /** Among sorted selections the row at a position never sorts before its counterpart. */
  lemma NotEarlier(less: Order, n: nat, s: seq<nat>, t: seq<nat>, p: nat)
    requires StrictWeakOrder(less, n)
    requires Selects(less, s, n) && Sorted(less, s) && Selects(less, t, n) && Sorted(less, t)
    requires p < |s| && p < |t|
    ensures !less(s[p], t[p])
  {
    if less(s[p], t[p]) {
      var x := Pigeonhole(s, t, p);
      EarlierInOther(less, n, s, t, p, x);
    }
  }

  lemma EarlierInOther(less: Order, n: nat, s: seq<nat>, t: seq<nat>, p: nat, x: nat)
    requires StrictWeakOrder(less, n)
    requires Selects(less, s, n) && Sorted(less, s) && Selects(less, t, n) && Sorted(less, t)
    requires p < |s| && p < |t| && less(s[p], t[p]) && x in s[..p + 1]
    ensures x in t[..p]
  {
    var a :| 0 <= a <= p && s[a] == x;
    assert s[p] in s && t[p] in t && x in s;
    assert less(x, t[p]) by {
      if a < p && !less(x, t[p]) {
        Chain(less, n, t[p], x, s[p]);
      }
    }
    if x in t {
      var b :| 0 <= b < |t| && t[b] == x;
      assert b < p;
      assert t[..p][b] == x;
    }
  }

  // ---- ORDER BY, OFFSET and LIMIT ----

  /** orderByLess on the keys of two rows. */
  function KeyLess(lib: Library, orderBy: seq<OrderItem>, keys: seq<SortKey>): Order
    requires forall k <- keys :: |k| == |orderBy|
  {
    (i: nat, j: nat) => i < |keys| && j < |keys| && OrderByLess(lib, orderBy, keys[i], keys[j], 0)
  }

  /** orderByLess is a strict weak order of rows whose key columns are homogeneous. */
  lemma HomogeneousIsOrder(lib: Library, orderBy: seq<OrderItem>, numeric: seq<bool>, keys: seq<SortKey>)
    requires |numeric| == |orderBy| && forall k <- keys :: KeyFits(lib, numeric, k)
    ensures forall k <- keys :: |k| == |orderBy|
    ensures StrictWeakOrder(KeyLess(lib, orderBy, keys), |keys|)
  {
    var less := KeyLess(lib, orderBy, keys);
    forall i: nat, j: nat | i < |keys| && j < |keys|
      ensures less(i, j) ==> !less(j, i)
    {
      LessAsymmetric(lib, orderBy, keys[i], keys[j], 0);
    }
    forall i: nat, j: nat, k: nat | i < |keys| && j < |keys| && k < |keys|
      ensures NotAfterChains(less, i, j, k)
    {
      if !less(j, i) && !less(k, j) {
        NotAfterTransitive(lib, orderBy, numeric, keys[i], keys[j], keys[k], 0);
      }
    }
  }

  /** What OFFSET and LIMIT leave of sorted rows. */
  /** Rows sorted by their keys stand as the ORDER BY items say. */
  lemma SortedRowsInOrder(lib: Library, orderBy: seq<OrderItem>, keys: seq<SortKey>, rows: seq<nat>)
    requires forall k <- keys :: |k| == |orderBy|
    requires Below(rows, |keys|) && Sorted(KeyLess(lib, orderBy, keys), rows)
    ensures forall p, q :: 0 <= p < q < |rows| ==> StandsBefore(lib, orderBy, keys, rows[p], rows[q])
  {
    forall p, q | 0 <= p < q < |rows|
      ensures StandsBefore(lib, orderBy, keys, rows[p], rows[q])
    {
      assert rows[p] in rows && rows[q] in rows && keys[rows[p]] in keys && keys[rows[q]] in keys;
      assert !KeyLess(lib, orderBy, keys)(rows[q], rows[p]);
      NotLessMayFollow(lib, orderBy, keys[rows[p]], keys[rows[q]]);
    }
  }

  ghost predicate StandsBefore(lib: Library, orderBy: seq<OrderItem>, keys: seq<SortKey>, i: nat, j: nat) {
    && i < |keys| && j < |keys| && |keys[i]| == |keys[j]| == |orderBy|
    && MayPrecede(lib, orderBy, keys[i], keys[j])
  }

  // ---- which rows a slice has ----

  ghost function Before(less: Order, n: nat, x: nat): set<nat> {
    set m: nat | m < n && less(m, x)
  }

  ghost function After(less: Order, n: nat, x: nat): set<nat> {
    set m: nat | m < n && less(x, m)
  }

  /** `x` has rank `r`: at most `r` rows sort before it, and more than `r` do not sort after it. */
  ghost predicate Ranks(less: Order, n: nat, x: nat, r: nat) {
    |Before(less, n, x)| <= r && r + |After(less, n, x)| < n
  }

  lemma ElementsOfPrefix(s: seq<nat>, r: nat)
    requires NoDup(s) && r <= |s|
    ensures |Elements(s[..r])| == r
  {
    NoDupCardinality(s[..r], Elements(s[..r]));
  }

  /** Position `r` of a sorted selection has rank `r`. */
  lemma SelectedRank(less: Order, n: nat, held: seq<nat>, r: nat)
    requires StrictWeakOrder(less, n) && Selects(less, held, n) && Sorted(less, held) && r < |held|
    ensures Ranks(less, n, held[r], r)
  {
    var x := held[r];
    assert x in held;
    BeforeIsEarlier(less, n, held, r);
    ElementsOfPrefix(held, r);
    SubsetSize(Before(less, n, x), Elements(held[..r]));
    AfterIsLater(less, n, held, r);
    ElementsOfPrefix(held, r + 1);
    SubsetSize(After(less, n, x), Range(n) - Elements(held[..r + 1]));
    var first := held[..r + 1];
    forall i <- first
      ensures i < n
    {
      assert i in held;
    }
    InRange(first, n);
  }

  lemma InRange(s: seq<nat>, n: nat)
    requires Below(s, n)
    ensures Elements(s) <= Range(n) && |Range(n) - Elements(s)| == n - |Elements(s)|
  {
  }

  lemma BeforeIsEarlier(less: Order, n: nat, held: seq<nat>, r: nat)
    requires StrictWeakOrder(less, n) && Selects(less, held, n) && Sorted(less, held) && r < |held|
    ensures Before(less, n, held[r]) <= Elements(held[..r])
  {
    forall m | m in Before(less, n, held[r])
      ensures m in held[..r]
    {
      assert held[r] in held && m in held;
      var q :| 0 <= q < |held| && held[q] == m;
      assert q < r;
      assert held[..r][q] == m;
    }
  }

  lemma AfterIsLater(less: Order, n: nat, held: seq<nat>, r: nat)
    requires StrictWeakOrder(less, n) && Selects(less, held, n) && Sorted(less, held) && r < |held|
    ensures After(less, n, held[r]) <= Range(n) - Elements(held[..r + 1])
  {
    forall m | m in held[..r + 1]
      ensures m !in After(less, n, held[r])
    {
      var q :| 0 <= q < |held[..r + 1]| && held[..r + 1][q] == m;
      assert held[q] == m && q <= r && held[r] in held && m in held;
    }
  }

  function Slice(order: seq<nat>, offset: nat, limit: Option<nat>): seq<nat> {
    var rest := if offset < |order| then order[offset..] else [];
    if limit.Some? && limit.value < |rest| then rest[..limit.value] else rest
  }

  /** Slicing a long enough prefix with the same keys gives the keys of the slice. */
  lemma SliceOfPrefix(less: Order, prefix: seq<nat>, order: seq<nat>, offset: nat, limit: Option<nat>)
    requires |prefix| <= |order| && SameKeys(less, prefix, order[..|prefix|])
    requires |prefix| == |order| || (limit.Some? && offset + limit.value <= |prefix|)
    ensures SameKeys(less, Slice(prefix, offset, limit), Slice(order, offset, limit))
  {
    assert forall p :: 0 <= p < |prefix| ==> Ties(less, prefix[p], order[..|prefix|][p]);
  }

  /** How many of `n` rows OFFSET and LIMIT leave. */
  function Left(n: nat, offset: nat, limit: Option<Int64>): int {
    var rest := if offset < n then n - offset else 0;
    if limit.Some? && limit.value < rest then limit.value else rest
  }

  /** Different rows in order, the first of them of rank `offset`, as many as OFFSET and LIMIT leave. */
  ghost predicate Answers(less: Order, n: nat, offset: nat, limit: Option<Int64>, rows: seq<nat>) {
    && NoDup(rows) && Below(rows, n) && Sorted(less, rows) && |rows| == Left(n, offset, limit)
    && forall p: nat :: p < |rows| ==> Ranks(less, n, rows[p], offset + p)
  }

  lemma SliceAnswers(less: Order, n: nat, prefix: seq<nat>, offset: nat, limit: Option<Int64>, rows: seq<nat>)
    requires StrictWeakOrder(less, n) && Selects(less, prefix, n) && Sorted(less, prefix)
    requires |rows| == Left(n, offset, limit) && (offset + |rows| <= |prefix| || rows == [])
    requires forall p :: 0 <= p < |rows| ==> rows[p] == prefix[offset + p]
    ensures Answers(less, n, offset, limit, rows)
  {
    forall p: nat | p < |rows|
      ensures Ranks(less, n, rows[p], offset + p)
    {
      SelectedRank(less, n, prefix, offset + p);
    }
    forall i <- rows
      ensures i < n
    {
      assert i in prefix;
    }
  }

  /** The rows carry the keys that sorting everything and slicing would give, and the ranks from OFFSET on. */
  ghost predicate Sliced(less: Order, n: nat, offset: nat, limit: Option<Int64>, rows: seq<nat>)
    requires limit.Some? ==> limit.value >= 0
  {
    && (forall order | FullSort(less, n, order) :: SameKeys(less, rows, Slice(order, offset, AsNat(limit))))
    && Answers(less, n, offset, limit, rows)
  }

  function AsNat(limit: Option<Int64>): Option<nat>
    requires limit.Some? ==> limit.value >= 0
  {
    if limit.Some? then Some(limit.value) else None
  }

  lemma PrefixIsEnough(less: Order, n: nat, prefix: seq<nat>, offset: nat, limit: Option<Int64>)
    requires limit.Some? ==> limit.value >= 0
    requires StrictWeakOrder(less, n) && Selects(less, prefix, n) && Sorted(less, prefix)
    requires |prefix| == n || (|prefix| < n && limit.Some? && offset + limit.value <= |prefix|)
    ensures Sliced(less, n, offset, limit, Slice(prefix, offset, AsNat(limit)))
  {
    SliceAnswers(less, n, prefix, offset, limit, Slice(prefix, offset, AsNat(limit)));
    forall order | FullSort(less, n, order)
      ensures SameKeys(less, Slice(prefix, offset, AsNat(limit)), Slice(order, offset, AsNat(limit)))
    {
      SortSelects(less, n, order);
      SelectionMatchesSort(less, n, prefix, order);
      SliceOfPrefix(less, prefix, order, offset, AsNat(limit));
    }
  }

  /** orderAndLimitRows on the row numbers 0..n. A negative OFFSET or LIMIT is an out-of-range slice. */
  method OrderAndLimit(less: Order, n: nat, offset: Option<Int64>, limit: Option<Int64>)
    returns (result: Result<seq<nat>>)
    requires StrictWeakOrder(less, n) && n < TWO_63
    ensures result.Err? <==> (offset.Some? && offset.value < 0) || (limit.Some? && limit.value < 0)
    ensures result.Ok? ==> Sliced(less, n, if offset.Some? then offset.value else 0, limit, result.value)
  {
    var rows: seq<nat>;
    var from := if offset.Some? then offset.value else 0;
    if limit.Some? && limit.value >= 0 {
      var k := Wrap(from + limit.value);
      if 0 <= k < n {
        rows := TopNKeyOrder(less, n, k);
      } else {
        rows := SortKeyOrder(less, n);
        SortSelects(less, n, rows);
      }
    } else {
      rows := SortKeyOrder(less, n);
      SortSelects(less, n, rows);
    }
    if from < 0 || (limit.Some? && limit.value < 0) {
      return Err("slice bounds out of range");
    }
    PrefixIsEnough(less, n, rows, from, limit);
    if offset.Some? {
      rows := if from < |rows| then rows[from..] else [];
    }
    if limit.Some? && limit.value < |rows| {
      rows := rows[..limit.value];
    }
    result := Ok(rows);
  }

  /** ORDER BY, OFFSET and LIMIT on rows given by their sort keys: different rows, as many as OFFSET and LIMIT
      leave, of the ranks from OFFSET on, and standing as the items' directions and NULLS options say. */
  method OrderRows(lib: Library, orderBy: seq<OrderItem>, keys: seq<SortKey>, offset: Option<Int64>,
      limit: Option<Int64>, ghost numeric: seq<bool>)
    returns (result: Result<seq<nat>>)
    requires |numeric| == |orderBy| && |keys| < TWO_63
    requires forall k <- keys :: |k| == |orderBy| && KeyFits(lib, numeric, k)
    ensures result.Err? <==> (offset.Some? && offset.value < 0) || (limit.Some? && limit.value < 0)
    ensures result.Ok? ==>
      Answers(KeyLess(lib, orderBy, keys), |keys|, if offset.Some? then offset.value else 0, limit, result.value)
    ensures result.Ok? ==> forall p, q :: 0 <= p < q < |result.value| ==>
      StandsBefore(lib, orderBy, keys, result.value[p], result.value[q])
  {
    HomogeneousIsOrder(lib, orderBy, numeric, keys);
    result := OrderAndLimit(KeyLess(lib, orderBy, keys), |keys|, offset, limit);
    if result.Ok? {
      SortedRowsInOrder(lib, orderBy, keys, result.value);
    }
  }
}

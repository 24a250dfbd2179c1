/** Counting conjuncts: every one of them is applied once or remains. */
module CommaJoinCounts {
  import opened Collections
  import opened Values
  import opened Expressions
  import opened CommaJoinPlan

  /** Of `total` these conjuncts have been applied and those remain. */
  ghost predicate Accounts(applied: multiset<Expr>, remaining: seq<Expr>, total: multiset<Expr>) {
    applied + multiset(remaining) == total
  }

  lemma AccountsNext(applied: multiset<Expr>, remaining: seq<Expr>, a: multiset<Expr>, b: multiset<Expr>,
      more: multiset<Expr>, applied': multiset<Expr>, remaining': seq<Expr>)
    requires Accounts(applied, remaining, a + b)
    requires Accounts(applied', remaining', applied + more + multiset(remaining))
    ensures Accounts(applied', remaining', a + (b + more))
  {
    assert applied + more + multiset(remaining) == (applied + multiset(remaining)) + more;
    assert (a + b) + more == a + (b + more);
  }

  lemma AccountsBoth(applied: multiset<Expr>, remaining: seq<Expr>, total: multiset<Expr>, more: multiset<Expr>,
      left: seq<Expr>)
    requires Accounts(applied, remaining, total) && Accounts(more, left, multiset(remaining))
    ensures Accounts(applied + more, left, total)
  {
    assert (applied + more) + multiset(left) == applied + (more + multiset(left));
  }

  /** The conjuncts pushed to the tables of `order`. */
  ghost function FiltersOf(tableFilters: seq<seq<Expr>>, order: seq<nat>): multiset<Expr> {
    if order == [] then multiset{}
    else FiltersOf(tableFilters, order[..|order| - 1]) + PushedTo(tableFilters, order[|order| - 1])
  }

  ghost function PushedTo(tableFilters: seq<seq<Expr>>, i: nat): multiset<Expr> {
    if i < |tableFilters| then multiset(tableFilters[i]) else multiset{}
  }

  lemma FiltersNext(tableFilters: seq<seq<Expr>>, order: seq<nat>, k: nat)
    requires k < |order|
    ensures FiltersOf(tableFilters, order[..k + 1])
      == FiltersOf(tableFilters, order[..k]) + PushedTo(tableFilters, order[k])
    ensures FiltersOf(tableFilters, order[..0]) == multiset{}
    ensures FiltersOf(tableFilters, order[..|order|]) == FiltersOf(tableFilters, order)
  {
    assert order[..k + 1][..k] == order[..k];
    assert order[..|order|] == order;
  }

  lemma Exchange(a: multiset<Expr>, b: multiset<Expr>, c: multiset<Expr>)
    ensures (a + b) + c == (a + c) + b
  {
  }

  lemma FiltersLast(tableFilters: seq<seq<Expr>>, a: seq<nat>, b: seq<nat>)
    requires b != []
    ensures FiltersOf(tableFilters, a + b)
      == FiltersOf(tableFilters, a + b[..|b| - 1]) + PushedTo(tableFilters, b[|b| - 1])
  {
    var order := a + b;
    assert order[..|order| - 1] == a + b[..|b| - 1];
    assert order[|order| - 1] == b[|b| - 1];
  }

  /** Each table counts the same wherever it stands. */
  lemma {:induction false} FiltersMiddle(tableFilters: seq<seq<Expr>>, a: seq<nat>, i: nat, b: seq<nat>)
    ensures FiltersOf(tableFilters, (a + [i]) + b) == FiltersOf(tableFilters, a + b) + PushedTo(tableFilters, i)
  {
    if b == [] {
      assert (a + [i]) + b == a + [i] && a + b == a && [i][..0] == [] && a + [] == a;
      FiltersLast(tableFilters, a, [i]);
    } else {
      var n := |b| - 1;
      FiltersMiddle(tableFilters, a, i, b[..n]);
      FiltersLast(tableFilters, a + [i], b);
      FiltersLast(tableFilters, a, b);
      Exchange(FiltersOf(tableFilters, a + b[..n]), PushedTo(tableFilters, i), PushedTo(tableFilters, b[n]));
    }
  }

  lemma FiltersWithout(tableFilters: seq<seq<Expr>>, order: seq<nat>, k: nat)
    requires k < |order|
    ensures FiltersOf(tableFilters, order)
      == FiltersOf(tableFilters, Without(order, k)) + PushedTo(tableFilters, order[k])
  {
    assert order == (order[..k] + [order[k]]) + order[k + 1..];
    FiltersMiddle(tableFilters, order[..k], order[k], order[k + 1..]);
  }

  /** All tables of `order` are among the first `n`. */
  ghost predicate Under(order: seq<nat>, n: nat) {
    forall k :: 0 <= k < |order| ==> order[k] < n
  }

  lemma {:induction false} FiltersOfFewer(tableFilters: seq<seq<Expr>>, order: seq<nat>, n: nat)
    requires n <= |tableFilters| && Under(order, n)
    ensures FiltersOf(tableFilters[..n], order) == FiltersOf(tableFilters, order)
  {
    if order != [] {
      var last := |order| - 1;
      assert order[last] < n && tableFilters[..n][order[last]] == tableFilters[order[last]];
      FiltersOfFewer(tableFilters, order[..last], n);
    }
  }

  /** `order` without `n`. */
  ghost function Rest(order: seq<nat>, n: nat): (rest: seq<nat>) {
    if n in order then
      var k :| 0 <= k < |order| && order[k] == n;
      Without(order, k)
    else order
  }

  lemma RestIsUnder(order: seq<nat>, n: nat)
    requires NoDup(order) && Under(order, n + 1)
    ensures NoDup(Rest(order, n)) && Under(Rest(order, n), n)
    ensures forall i: nat :: i in Rest(order, n) <==> i in order && i != n
  {
    var rest := Rest(order, n);
    if n in order {
      var k: nat :| k < |order| && order[k] == n && rest == Without(order, k);
      WithoutNoDup(order, k);
      forall i: nat
        ensures i in rest <==> i in order && i != n
      {
        WithoutMembers(order, k, i);
      }
    }
    forall m | 0 <= m < |rest|
      ensures rest[m] < n
    {
      assert rest[m] in rest;
    }
  }

  lemma RestFilters(tableFilters: seq<seq<Expr>>, order: seq<nat>, n: nat)
    requires n < |tableFilters| && (n in order || tableFilters[n] == [])
    ensures FiltersOf(tableFilters, order) == FiltersOf(tableFilters, Rest(order, n)) + multiset(tableFilters[n])
  {
    if n in order {
      var k: nat :| k < |order| && order[k] == n && Rest(order, n) == Without(order, k);
      FiltersWithout(tableFilters, order, k);
    }
  }

  /** An order of all tables that have pushed conjuncts has them all. */
  lemma {:induction false} FiltersOfAll(tableFilters: seq<seq<Expr>>, order: seq<nat>)
    requires NoDup(order) && Under(order, |tableFilters|)
    requires forall i: nat :: i < |tableFilters| && i !in order ==> tableFilters[i] == []
    ensures FiltersOf(tableFilters, order) == Pooled(tableFilters)
  {
    if tableFilters != [] {
      var n := |tableFilters| - 1;
      RestIsUnder(order, n);
      RestFilters(tableFilters, order, n);
      FiltersOfFewer(tableFilters, Rest(order, n), n);
      FiltersOfAll(tableFilters[..n], Rest(order, n));
    }
  }

  lemma OrderNext(order: seq<nat>, k: nat)
    requires NoDup(order) && k < |order|
    ensures Elements(order[..k + 1]) == Elements(order[..k]) + {order[k]}
    ensures order[k] !in Elements(order[..k])
    ensures Elements(order[..0]) == {} && Elements(order[..|order|]) == Elements(order)
  {
    assert order[..k + 1] == order[..k] + [order[k]];
    assert order[..|order|] == order;
  }

  lemma AccountsFirst(tableFilters: seq<seq<Expr>>, order: seq<nat>, pending: seq<Expr>)
    requires order != [] && order[0] < |tableFilters|
    ensures Accounts(multiset(tableFilters[order[0]]), pending, multiset(pending) + FiltersOf(tableFilters, order[..1]))
  {
    FiltersNext(tableFilters, order, 0);
    assert multiset{} + multiset(tableFilters[order[0]]) == multiset(tableFilters[order[0]]);
  }

  /** Joining the next table of the order applies its conjuncts and some of the pending ones. */
  lemma AccountsOrdered(tableFilters: seq<seq<Expr>>, order: seq<nat>, k: nat, pending: seq<Expr>,
      applied: multiset<Expr>, remaining: seq<Expr>, applied': multiset<Expr>, remaining': seq<Expr>)
    requires k < |order| && order[k] < |tableFilters|
    requires Accounts(applied, remaining, multiset(pending) + FiltersOf(tableFilters, order[..k]))
    requires Accounts(applied', remaining', applied + multiset(tableFilters[order[k]]) + multiset(remaining))
    ensures Accounts(applied', remaining', multiset(pending) + FiltersOf(tableFilters, order[..k + 1]))
  {
    FiltersNext(tableFilters, order, k);
    AccountsNext(applied, remaining, multiset(pending), FiltersOf(tableFilters, order[..k]),
      multiset(tableFilters[order[k]]),
      applied', remaining');
  }
}

/** The planning decisions for a comma-separated FROM list: which conjuncts are pushed to one
    table, which tables are pre-joined together, and in which order the rest is joined. */
module CommaJoinPlan {
  import opened Collections
  import opened Values
  import opened Expressions
  import opened CommaJoinSpec

  type Edge = (nat, nat)

  // ---- conjuncts that belong to one table ----

  predicate Declares(tables: seq<Table>, i: nat, name: string) {
    i < |tables| && name in tables[i].cols
  }

  /** Table `i` alone declares the columns `clause` names, and it declares at least one. */
  ghost predicate PushesTo(tables: seq<Table>, clause: Expr, i: nat) {
    && (exists name <- ColumnNames(clause) :: Declares(tables, i, name))
    && (forall name, j: nat | name in ColumnNames(clause) && Declares(tables, j, name) :: j == i)
  }

  method OwnerOf(tables: seq<Table>, clause: Expr) returns (owner: int)
    ensures -1 <= owner < |tables|
    ensures owner != -1 ==> PushesTo(tables, clause, owner)
    ensures owner == -1 ==> forall i: nat :: !PushesTo(tables, clause, i)
  {
    var refs := ColumnNames(clause);
    owner := -1;
    for r := 0 to |refs|
      invariant -1 <= owner < |tables|
      invariant forall q, j: nat | 0 <= q < r && Declares(tables, j, refs[q]) :: j == owner
      invariant owner != -1 ==> exists q :: 0 <= q < r && Declares(tables, owner, refs[q])
    {
      var found := -1;
      for i := 0 to |tables|
        invariant -1 <= found < i
        invariant found != -1 ==> Declares(tables, found, refs[r])
        invariant forall j: nat | j < i && Declares(tables, j, refs[r]) :: j == found
      {
        if refs[r] in tables[i].cols {
          if found == -1 {
            found := i;
          } else {
            assert Declares(tables, i, refs[r]) && Declares(tables, found, refs[r]);
            return -1;
          }
        }
      }
      if found != -1 {
        if owner == -1 {
          owner := found;
        } else if owner != found {
          assert Declares(tables, found, refs[r]);
          return -1;
        }
      }
    }
  }

  function Pooled(filters: seq<seq<Expr>>): multiset<Expr> {
    if filters == [] then multiset{} else Pooled(filters[..|filters| - 1]) + multiset(filters[|filters| - 1])
  }

  lemma {:induction false} PooledAppend(filters: seq<seq<Expr>>, i: nat, c: Expr)
    requires i < |filters|
    ensures Pooled(filters[i := filters[i] + [c]]) == Pooled(filters) + multiset{c}
  {
    var n := |filters| - 1;
    var changed := filters[i := filters[i] + [c]];
    if i == n {
      assert changed[..n] == filters[..n];
    } else {
      PooledAppend(filters[..n], i, c);
      assert changed[..n] == filters[..n][i := filters[i] + [c]];
    }
  }

  lemma {:induction false} PooledEmpty(n: nat)
    ensures Pooled(seq(n, _ => [])) == multiset{}
  {
    if n > 0 {
      PooledEmpty(n - 1);
      var all: seq<seq<Expr>>, fewer: seq<seq<Expr>> := seq(n, _ => []), seq(n - 1, _ => []);
      assert all[..n - 1] == fewer;
    }
  }

  lemma {:induction false} PooledMember(filters: seq<seq<Expr>>, c: Expr)
    ensures c in Pooled(filters) <==> exists i :: 0 <= i < |filters| && c in filters[i]
  {
    if filters != [] {
      var n := |filters| - 1;
      PooledMember(filters[..n], c);
      assert forall i :: 0 <= i < n ==> filters[..n][i] == filters[i];
      assert c in filters[n] <==> c in multiset(filters[n]);
    }
  }

  /** The conjuncts filed under a table belong to it, those filed under none belong to none. */
  ghost predicate Filed(tables: seq<Table>, clauses: seq<Expr>, tableFilters: seq<seq<Expr>>, crossFilters: seq<Expr>) {
    && |tableFilters| == |tables|
    && (forall i | 0 <= i < |tables| :: forall c <- tableFilters[i] :: c in clauses && PushesTo(tables, c, i))
    && forall c <- crossFilters :: c in clauses && forall i: nat :: !PushesTo(tables, c, i)
  }

  lemma FileUnder(tables: seq<Table>, clauses: seq<Expr>, k: nat, tableFilters: seq<seq<Expr>>, crossFilters: seq<Expr>,
      owner: nat)
    requires k < |clauses| && owner < |tables| && PushesTo(tables, clauses[k], owner)
    requires Filed(tables, clauses, tableFilters, crossFilters)
    requires Pooled(tableFilters) + multiset(crossFilters) == multiset(clauses[..k])
    ensures
      var filed := tableFilters[owner := tableFilters[owner] + [clauses[k]]];
      && Filed(tables, clauses, filed, crossFilters)
      && Pooled(filed) + multiset(crossFilters) == multiset(clauses[..k + 1])
  {
    PooledAppend(tableFilters, owner, clauses[k]);
    assert clauses[..k + 1] == clauses[..k] + [clauses[k]];
  }

  lemma FileCross(tables: seq<Table>, clauses: seq<Expr>, k: nat, tableFilters: seq<seq<Expr>>, crossFilters: seq<Expr>)
    requires k < |clauses| && forall i: nat :: !PushesTo(tables, clauses[k], i)
    requires Filed(tables, clauses, tableFilters, crossFilters)
    requires Pooled(tableFilters) + multiset(crossFilters) == multiset(clauses[..k])
    ensures Filed(tables, clauses, tableFilters, crossFilters + [clauses[k]])
    ensures Pooled(tableFilters) + multiset(crossFilters + [clauses[k]]) == multiset(clauses[..k + 1])
  {
    assert clauses[..k + 1] == clauses[..k] + [clauses[k]];
  }

  /** Every conjunct goes to exactly one place: the one table it belongs to, or the cross list. */
  method Classify(tables: seq<Table>, clauses: seq<Expr>)
    returns (tableFilters: seq<seq<Expr>>, crossFilters: seq<Expr>)
    ensures |tableFilters| == |tables|
    ensures Pooled(tableFilters) + multiset(crossFilters) == multiset(clauses)
    ensures forall i | 0 <= i < |tables| :: forall c <- tableFilters[i] :: c in clauses && PushesTo(tables, c, i)
    ensures forall c <- crossFilters :: c in clauses && forall i: nat :: !PushesTo(tables, c, i)
    ensures forall c <- clauses :: c in crossFilters || exists i :: 0 <= i < |tables| && c in tableFilters[i]
  {
    tableFilters, crossFilters := seq(|tables|, _ => []), [];
    PooledEmpty(|tables|);
    for k := 0 to |clauses|
      invariant Filed(tables, clauses, tableFilters, crossFilters)
      invariant Pooled(tableFilters) + multiset(crossFilters) == multiset(clauses[..k])
    {
      var owner := OwnerOf(tables, clauses[k]);
      if owner == -1 {
        FileCross(tables, clauses, k, tableFilters, crossFilters);
        crossFilters := crossFilters + [clauses[k]];
      } else {
        FileUnder(tables, clauses, k, tableFilters, crossFilters, owner);
        tableFilters := tableFilters[owner := tableFilters[owner] + [clauses[k]]];
      }
    }
    assert clauses[..|clauses|] == clauses;
    forall c <- clauses
      ensures c in crossFilters || exists i :: 0 <= i < |tables| && c in tableFilters[i]
    {
      PooledMember(tableFilters, c);
      assert c in multiset(clauses);
    }
  }

  // ---- the graph of two-table conjuncts ----

  ghost predicate Touches(tables: seq<Table>, clause: Expr, j: nat) {
    exists name <- ColumnNames(clause) :: Declares(tables, j, name)
  }

  ghost predicate JoinsPair(tables: seq<Table>, clause: Expr, e: Edge) {
    && e.0 != e.1
    && forall j: nat :: Touches(tables, clause, j) <==> j == e.0 || j == e.1
  }

  method TouchedTables(tables: seq<Table>, clause: Expr) returns (touched: set<nat>)
    ensures forall j: nat :: j in touched <==> Touches(tables, clause, j)
  {
    var refs := ColumnNames(clause);
    touched := {};
    for r := 0 to |refs|
      invariant forall j: nat :: j in touched <==> exists q :: 0 <= q < r && Declares(tables, j, refs[q])
    {
      for j := 0 to |tables|
        invariant forall k: nat :: k in touched <==>
          (exists q :: 0 <= q < r && Declares(tables, k, refs[q])) || (k < j && Declares(tables, k, refs[r]))
      {
        if refs[r] in tables[j].cols {
          touched := touched + {j};
        }
      }
    }
  }

  lemma PairUnique(tables: seq<Table>, clause: Expr, e: Edge, e': Edge)
    requires JoinsPair(tables, clause, e) && JoinsPair(tables, clause, e')
    ensures e' == e || e' == (e.1, e.0)
  {
    assert Touches(tables, clause, e'.0) && Touches(tables, clause, e'.1);
  }

  lemma PairSize(tables: seq<Table>, clause: Expr, touched: set<nat>, e: Edge)
    requires forall j: nat :: j in touched <==> Touches(tables, clause, j)
    requires JoinsPair(tables, clause, e)
    ensures |touched| == 2
  {
    assert touched == {e.0, e.1};
  }

  lemma TwoMembers(s: set<nat>, a: nat, b: nat)
    requires |s| == 2 && a in s && b in s - {a}
    ensures s == {a, b}
  {
    assert |s - {a} - {b}| == 0;
  }

  /** The two tables a conjunct touches, in either order, when there are exactly two. */
  method TouchedPair(tables: seq<Table>, clause: Expr) returns (pair: Option<Edge>)
    ensures pair.Some? ==> JoinsPair(tables, clause, pair.value)
    ensures pair == None ==> forall e: Edge :: !JoinsPair(tables, clause, e)
  {
    var touched := TouchedTables(tables, clause);
    if |touched| == 2 {
      var a :| a in touched;
      assert |touched - {a}| == 1;
      var b :| b in touched - {a};
      TwoMembers(touched, a, b);
      pair := Some((a, b));
    } else {
      pair := None;
      forall e: Edge | JoinsPair(tables, clause, e)
        ensures false
      {
        PairSize(tables, clause, touched, e);
      }
    }
  }

  method CrossEdges(tables: seq<Table>, crossFilters: seq<Expr>) returns (edges: seq<Edge>)
    ensures forall e <- edges :: e.0 < |tables| && e.1 < |tables| && exists c <- crossFilters :: JoinsPair(tables, c, e)
    ensures forall c, e: Edge | c in crossFilters && JoinsPair(tables, c, e) :: e in edges || (e.1, e.0) in edges
  {
    edges := [];
    for k := 0 to |crossFilters|
      invariant forall e <- edges ::
        e.0 < |tables| && e.1 < |tables| && exists c <- crossFilters :: JoinsPair(tables, c, e)
      invariant forall i, e: Edge | 0 <= i < k && JoinsPair(tables, crossFilters[i], e) ::
        e in edges || (e.1, e.0) in edges
    {
      var clause := crossFilters[k];
      var pair := TouchedPair(tables, clause);
      if pair.Some? {
        var e := pair.value;
        assert Touches(tables, clause, e.0) && Touches(tables, clause, e.1);
        edges := edges + [e];
        forall e': Edge | JoinsPair(tables, clause, e')
          ensures e' == e || e' == (e.1, e.0)
        {
          PairUnique(tables, clause, e, e');
        }
      }
    }
  }

  predicate Incident(edges: seq<Edge>, i: nat) {
    exists e <- edges :: e.0 == i || e.1 == i
  }

  /** Tables without pushed conjuncts that some two-table conjunct mentions. */
  method CrossOnly(n: nat, tableFilters: seq<seq<Expr>>, edges: seq<Edge>) returns (crossOnly: set<nat>)
    requires |tableFilters| == n
    ensures forall i: nat :: i in crossOnly <==> i < n && tableFilters[i] == [] && Incident(edges, i)
  {
    crossOnly := {};
    for i := 0 to n
      invariant forall j: nat :: j in crossOnly <==> j < i && tableFilters[j] == [] && Incident(edges, j)
    {
      if tableFilters[i] != [] {
        continue;
      }
      for k := 0 to |edges|
        invariant forall q :: 0 <= q < k ==> edges[q].0 != i && edges[q].1 != i
        invariant forall j: nat :: j in crossOnly <==> j < i && tableFilters[j] == [] && Incident(edges, j)
      {
        if edges[k].0 == i || edges[k].1 == i {
          crossOnly := crossOnly + {i};
          break;
        }
      }
    }
  }

  // ---- connected components ----

  predicate Adjacent(edges: seq<Edge>, crossOnly: set<nat>, a: nat, b: nat) {
    a in crossOnly && b in crossOnly && ((a, b) in edges || (b, a) in edges)
  }

  ghost predicate IsPath(edges: seq<Edge>, crossOnly: set<nat>, p: seq<nat>) {
    p != [] && forall k :: 0 <= k < |p| - 1 ==> Adjacent(edges, crossOnly, p[k], p[k + 1])
  }

  ghost predicate Connected(edges: seq<Edge>, crossOnly: set<nat>, a: nat, b: nat) {
    exists p: seq<nat> :: IsPath(edges, crossOnly, p) && p[0] == a && p[|p| - 1] == b
  }

  lemma ConnectedStep(edges: seq<Edge>, crossOnly: set<nat>, a: nat, b: nat, c: nat)
    requires Connected(edges, crossOnly, a, b) && Adjacent(edges, crossOnly, b, c)
    ensures Connected(edges, crossOnly, a, c)
  {
    var p: seq<nat> :| IsPath(edges, crossOnly, p) && p[0] == a && p[|p| - 1] == b;
    var q := p + [c];
    assert IsPath(edges, crossOnly, q) && q[0] == a && q[|q| - 1] == c;
  }

  lemma ConnectedSelf(edges: seq<Edge>, crossOnly: set<nat>, a: nat)
    ensures Connected(edges, crossOnly, a, a)
  {
    assert IsPath(edges, crossOnly, [a]);
  }

  lemma {:induction false} Reversed(edges: seq<Edge>, crossOnly: set<nat>, p: seq<nat>)
    requires IsPath(edges, crossOnly, p)
    ensures Connected(edges, crossOnly, p[|p| - 1], p[0])
  {
    if |p| == 1 {
      ConnectedSelf(edges, crossOnly, p[0]);
    } else {
      Reversed(edges, crossOnly, p[1..]);
      ConnectedStep(edges, crossOnly, p[|p| - 1], p[1], p[0]);
    }
  }

  lemma {:induction false} ConnectedJoin(edges: seq<Edge>, crossOnly: set<nat>, root: nat, a: nat, p: seq<nat>)
    requires Connected(edges, crossOnly, root, a) && IsPath(edges, crossOnly, p) && p[0] == a
    ensures Connected(edges, crossOnly, root, p[|p| - 1])
    decreases |p|
  {
    if |p| > 1 {
      ConnectedStep(edges, crossOnly, root, a, p[1]);
      ConnectedJoin(edges, crossOnly, root, p[1], p[1..]);
    }
  }

  lemma ConnectedViaRoot(edges: seq<Edge>, crossOnly: set<nat>, root: nat, a: nat, b: nat)
    requires Connected(edges, crossOnly, root, a) && Connected(edges, crossOnly, root, b)
    ensures Connected(edges, crossOnly, a, b)
  {
    var p: seq<nat> :| IsPath(edges, crossOnly, p) && p[0] == root && p[|p| - 1] == a;
    Reversed(edges, crossOnly, p);
    var q: seq<nat> :| IsPath(edges, crossOnly, q) && q[0] == root && q[|q| - 1] == b;
    ConnectedJoin(edges, crossOnly, a, root, q);
  }

  /** Neighbours carry the same label, except for tables still waiting in `open`. */
  ghost predicate Closed(edges: seq<Edge>, crossOnly: set<nat>, compOf: seq<int>, open: set<nat>) {
    forall a: nat, b: nat | Adjacent(edges, crossOnly, a, b) && a < |compOf| && b < |compOf| && compOf[a] != -1
      && a !in open ::
      compOf[b] == compOf[a]
  }

  lemma {:induction false} ClosedPath(edges: seq<Edge>, crossOnly: set<nat>, compOf: seq<int>, p: seq<nat>)
    requires forall i <- crossOnly :: i < |compOf|
    requires Closed(edges, crossOnly, compOf, {}) && IsPath(edges, crossOnly, p)
    requires p[0] < |compOf| && compOf[p[0]] != -1
    ensures p[|p| - 1] < |compOf| && compOf[p[|p| - 1]] == compOf[p[0]]
  {
    if |p| > 1 {
      assert Adjacent(edges, crossOnly, p[0], p[1]);
      ClosedPath(edges, crossOnly, compOf, p[1..]);
    }
  }

  ghost predicate Labelled(edges: seq<Edge>, crossOnly: set<nat>, compOf: seq<int>, roots: seq<nat>) {
    forall i :: 0 <= i < |compOf| ==>
      && -1 <= compOf[i] < |roots|
      && (compOf[i] != -1 ==> i in crossOnly && Connected(edges, crossOnly, roots[compOf[i]], i))
  }

  function Members(queue: seq<nat>): set<nat> {
    set i | i in queue
  }

  function UnlabelledIn(compOf: seq<int>): set<nat> {
    set i: nat | i < |compOf| && compOf[i] == -1
  }

  /** Mid-search: relative to `compOf0` only `comp` was handed out, and every labelled table
      except those in `open` has its neighbours labelled like itself. */
  ghost predicate Flooding(edges: seq<Edge>, crossOnly: set<nat>, compOf0: seq<int>, compOf: seq<int>, comp: nat,
      roots: seq<nat>, open: set<nat>)
  {
    && |compOf| == |compOf0|
    && (forall i :: 0 <= i < |compOf| ==> compOf[i] == compOf0[i] || (compOf0[i] == -1 && compOf[i] == comp))
    && Labelled(edges, crossOnly, compOf, roots)
    && (forall i <- open :: i < |compOf| && compOf[i] == comp)
    && Closed(edges, crossOnly, compOf, open)
  }

  lemma LabelNeighbour(edges: seq<Edge>, crossOnly: set<nat>, compOf0: seq<int>, compOf: seq<int>, comp: nat,
      roots: seq<nat>, open: set<nat>, cur: nat, nb: nat)
    requires Flooding(edges, crossOnly, compOf0, compOf, comp, roots, open)
    requires cur in open && comp < |roots|
    requires Adjacent(edges, crossOnly, cur, nb) && nb < |compOf| && compOf[nb] == -1
    ensures Flooding(edges, crossOnly, compOf0, compOf[nb := comp], comp, roots, open + {nb})
    ensures UnlabelledIn(compOf[nb := comp]) < UnlabelledIn(compOf)
  {
    ConnectedStep(edges, crossOnly, roots[comp], cur, nb);
    assert nb in UnlabelledIn(compOf) && nb !in UnlabelledIn(compOf[nb := comp]);
  }

  lemma CloseNode(edges: seq<Edge>, crossOnly: set<nat>, compOf0: seq<int>, compOf: seq<int>, comp: nat,
      roots: seq<nat>, open: set<nat>, cur: nat)
    requires Flooding(edges, crossOnly, compOf0, compOf, comp, roots, open + {cur})
    requires Closed(edges, crossOnly, compOf0, {})
    requires forall i :: 0 <= i < |compOf0| ==> compOf0[i] < comp
    requires forall b: nat | Adjacent(edges, crossOnly, cur, b) :: b < |compOf| && compOf[b] != -1
    ensures Flooding(edges, crossOnly, compOf0, compOf, comp, roots, open)
  {
    forall b: nat | Adjacent(edges, crossOnly, cur, b)
      ensures compOf[b] == comp
    {
      if compOf0[b] != -1 {
        assert Adjacent(edges, crossOnly, b, cur);
      }
    }
  }

  /** Labels and queues the unlabelled neighbours of `cur`. */
  method Expand(edges: seq<Edge>, crossOnly: set<nat>, ghost compOf0: seq<int>, compOf1: seq<int>, comp: nat,
      ghost roots: seq<nat>, cur: nat, queue1: seq<nat>)
    returns (compOf: seq<int>, queue: seq<nat>)
    requires Flooding(edges, crossOnly, compOf0, compOf1, comp, roots, Members(queue1) + {cur})
    requires forall i <- crossOnly :: i < |compOf0|
    requires comp < |roots|
    ensures Flooding(edges, crossOnly, compOf0, compOf, comp, roots, Members(queue) + {cur})
    ensures forall b: nat | Adjacent(edges, crossOnly, cur, b) :: b < |compOf| && compOf[b] != -1
    ensures UnlabelledIn(compOf) < UnlabelledIn(compOf1)
         || (UnlabelledIn(compOf) == UnlabelledIn(compOf1) && queue == queue1)
    ensures forall i :: 0 <= i < |compOf| && compOf1[i] != -1 ==> compOf[i] == compOf1[i]
  {
    compOf, queue := compOf1, queue1;
    for k := 0 to |edges|
      invariant Flooding(edges, crossOnly, compOf0, compOf, comp, roots, Members(queue) + {cur})
      invariant forall q, b: nat | 0 <= q < k && b in crossOnly && (edges[q] == (cur, b) || edges[q] == (b, cur)) ::
        compOf[b] != -1
      invariant UnlabelledIn(compOf) < UnlabelledIn(compOf1)
             || (UnlabelledIn(compOf) == UnlabelledIn(compOf1) && queue == queue1)
      invariant forall i :: 0 <= i < |compOf| && compOf1[i] != -1 ==> compOf[i] == compOf1[i]
    {
      var (a, b) := edges[k];
      var nb: int := -1;
      if a == cur && b in crossOnly {
        nb := b;
      } else if b == cur && a in crossOnly {
        nb := a;
      }
      if nb >= 0 && compOf[nb] == -1 {
        LabelNeighbour(edges, crossOnly, compOf0, compOf, comp, roots, Members(queue) + {cur}, cur, nb);
        assert Members(queue + [nb]) + {cur} == Members(queue) + {cur} + {nb};
        compOf := compOf[nb := comp];
        queue := queue + [nb];
      }
    }
  }

  /** Breadth-first search from `start`: labels what is reachable and nothing else. */
  method Flood(edges: seq<Edge>, crossOnly: set<nat>, compOf0: seq<int>, comp: nat, ghost roots: seq<nat>, start: nat)
    returns (compOf: seq<int>)
    requires start < |compOf0| && start in crossOnly && compOf0[start] == -1
    requires forall i <- crossOnly :: i < |compOf0|
    requires |roots| == comp
    requires Labelled(edges, crossOnly, compOf0, roots)
    requires Closed(edges, crossOnly, compOf0, {})
    ensures |compOf| == |compOf0| && compOf[start] == comp
    ensures forall i :: 0 <= i < |compOf| && compOf0[i] != -1 ==> compOf[i] == compOf0[i]
    ensures Labelled(edges, crossOnly, compOf, roots + [start])
    ensures Closed(edges, crossOnly, compOf, {})
  {
    var queue: seq<nat> := [start];
    compOf := compOf0[start := comp];
    ConnectedSelf(edges, crossOnly, start);
    while queue != []
      invariant |compOf| == |compOf0| && compOf[start] == comp
      invariant Flooding(edges, crossOnly, compOf0, compOf, comp, roots + [start], Members(queue))
      decreases UnlabelledIn(compOf), |queue|
    {
      var cur := queue[0];
      assert Members(queue) == Members(queue[1..]) + {cur};
      compOf, queue := Expand(edges, crossOnly, compOf0, compOf, comp, roots + [start], cur, queue[1..]);
      CloseNode(edges, crossOnly, compOf0, compOf, comp, roots + [start], Members(queue), cur);
    }
  }

  /** The components partition the cross-only tables exactly by connectedness. */
  method Components(n: nat, crossOnly: set<nat>, edges: seq<Edge>) returns (comps: seq<seq<nat>>)
    requires forall i <- crossOnly :: i < n
    ensures forall c | 0 <= c < |comps| :: NoDup(comps[c]) && forall i <- comps[c] :: i in crossOnly
    ensures forall i <- crossOnly :: exists c :: 0 <= c < |comps| && i in comps[c]
    ensures forall c, d, i | 0 <= c < |comps| && 0 <= d < |comps| && i in comps[c] && i in comps[d] :: c == d
    ensures forall c, a, b | 0 <= c < |comps| && a in comps[c] && b in crossOnly ::
      b in comps[c] <==> Connected(edges, crossOnly, a, b)
  {
    var compOf: seq<int> := seq(n, _ => -1);
    var nComps := 0;
    ghost var roots: seq<nat> := [];
    for start := 0 to n
      invariant |compOf| == n && |roots| == nComps
      invariant Labelled(edges, crossOnly, compOf, roots)
      invariant Closed(edges, crossOnly, compOf, {})
      invariant forall i :: 0 <= i < start && i in crossOnly ==> compOf[i] != -1
    {
      if start !in crossOnly || compOf[start] != -1 {
        continue;
      }
      compOf := Flood(edges, crossOnly, compOf, nComps, roots, start);
      roots := roots + [start];
      nComps := nComps + 1;
    }
    comps := seq(nComps, _ => []);
    for i := 0 to n
      invariant |comps| == nComps
      invariant forall c | 0 <= c < nComps :: NoDup(comps[c]) && forall j <- comps[c] :: j < i && compOf[j] == c
      invariant forall j | 0 <= j < i && compOf[j] != -1 :: j in comps[compOf[j]]
    {
      if compOf[i] >= 0 {
        ghost var before := comps;
        comps := comps[compOf[i] := comps[compOf[i]] + [i]];
        forall j | 0 <= j < i + 1 && compOf[j] != -1
          ensures j in comps[compOf[j]]
        {
          if j < i {
            assert j in before[compOf[j]];
          } else {
            assert comps[compOf[i]][|before[compOf[i]]|] == i;
          }
        }
      }
    }
    forall c, a, b | 0 <= c < |comps| && a in comps[c] && b in crossOnly
      ensures b in comps[c] <==> Connected(edges, crossOnly, a, b)
    {
      ComponentMeaning(edges, crossOnly, compOf, roots, a, b);
    }
    forall i | i in crossOnly
      ensures exists c :: 0 <= c < |comps| && i in comps[c]
    {
      assert i in comps[compOf[i]];
    }
  }

  lemma ComponentMeaning(edges: seq<Edge>, crossOnly: set<nat>, compOf: seq<int>, roots: seq<nat>, a: nat, b: nat)
    requires forall i <- crossOnly :: i < |compOf| && compOf[i] != -1
    requires Labelled(edges, crossOnly, compOf, roots) && Closed(edges, crossOnly, compOf, {})
    requires a in crossOnly && b in crossOnly
    ensures compOf[a] == compOf[b] <==> Connected(edges, crossOnly, a, b)
  {
    if compOf[a] == compOf[b] {
      ConnectedViaRoot(edges, crossOnly, roots[compOf[a]], a, b);
    }
    if Connected(edges, crossOnly, a, b) {
      var p: seq<nat> :| IsPath(edges, crossOnly, p) && p[0] == a && p[|p| - 1] == b;
      ClosedPath(edges, crossOnly, compOf, p);
    }
  }

  // ---- greedy choices ----

  function Degree(edges: seq<Edge>, i: nat): nat {
    if edges == [] then 0
    else
      var n := |edges| - 1;
      Degree(edges[..n], i) + (if edges[n].0 == i || edges[n].1 == i then 1 else 0)
  }

  method PickSeed(comp: seq<nat>, edges: seq<Edge>) returns (seed: nat)
    requires comp != []
    ensures seed in comp
    ensures forall i <- comp :: Degree(edges, i) <= Degree(edges, seed)
  {
    seed := comp[0];
    for k := 1 to |comp|
      invariant seed in comp
      invariant forall j :: 0 <= j < k ==> Degree(edges, comp[j]) <= Degree(edges, seed)
    {
      var idx := comp[k];
      var degIdx, degSeed := 0, 0;
      for q := 0 to |edges|
        invariant degIdx == Degree(edges[..q], idx) && degSeed == Degree(edges[..q], seed)
      {
        assert edges[..q + 1][..q] == edges[..q];
        if edges[q].0 == idx || edges[q].1 == idx {
          degIdx := degIdx + 1;
        }
        if edges[q].0 == seed || edges[q].1 == seed {
          degSeed := degSeed + 1;
        }
      }
      assert edges[..|edges|] == edges;
      if degIdx > degSeed {
        seed := idx;
      }
    }
  }

  predicate Linked(edges: seq<Edge>, i: nat, seen: set<nat>) {
    exists e <- edges :: (e.0 == i && e.1 in seen) || (e.1 == i && e.0 in seen)
  }

  /** The next table of a component: an unseen one, linked to a seen one when there is such. */
  method NextInComponent(comp: seq<nat>, seen: set<nat>, edges: seq<Edge>) returns (next: nat)
    requires exists i <- comp :: i !in seen
    ensures next in comp && next !in seen
    ensures (exists i <- comp :: i !in seen && Linked(edges, i, seen)) ==> Linked(edges, next, seen)
  {
    var nextC: int := -1;
    for k := 0 to |comp|
      invariant nextC == -1
      invariant forall j :: 0 <= j < k ==> comp[j] in seen || !Linked(edges, comp[j], seen)
    {
      if comp[k] in seen {
        continue;
      }
      for q := 0 to |edges|
        invariant nextC == -1
        invariant forall r :: 0 <= r < q ==>
          !((edges[r].0 == comp[k] && edges[r].1 in seen) || (edges[r].1 == comp[k] && edges[r].0 in seen))
      {
        if (edges[q].0 == comp[k] && edges[q].1 in seen) || (edges[q].1 == comp[k] && edges[q].0 in seen) {
          assert edges[q] in edges;
          nextC := comp[k];
          break;
        }
      }
      if nextC >= 0 {
        break;
      }
    }
    if nextC < 0 {
      for k := 0 to |comp|
        invariant nextC == -1
        invariant forall j :: 0 <= j < k ==> comp[j] in seen
      {
        if comp[k] !in seen {
          nextC := comp[k];
          break;
        }
      }
    }
    next := nextC;
  }

  /** Pushed conjuncts of table `j`, plus 1000 for every two-table conjunct with a joined table. */
  function Score(tableFilters: seq<seq<Expr>>, edges: seq<Edge>, j: nat, joined: set<nat>): nat
    requires j < |tableFilters|
  {
    |tableFilters[j]| + 1000 * Links(edges, j, joined)
  }

  function Links(edges: seq<Edge>, j: nat, joined: set<nat>): nat {
    if edges == [] then 0
    else
      var n := |edges| - 1;
      Links(edges[..n], j, joined)
      + (if (edges[n].0 == j && edges[n].1 in joined) || (edges[n].1 == j && edges[n].0 in joined) then 1 else 0)
  }

  ghost predicate BestChoice(tableFilters: seq<seq<Expr>>, edges: seq<Edge>, preJoined: set<nat>, joined: seq<nat>,
      j: nat)
  {
    j < |tableFilters| &&
    forall k: nat | k < |tableFilters| && k !in joined && k !in preJoined ::
      Score(tableFilters, edges, k, Elements(joined)) <= Score(tableFilters, edges, j, Elements(joined))
  }

  lemma {:induction false} NoLinks(edges: seq<Edge>, j: nat)
    ensures Links(edges, j, {}) == 0
  {
    if edges != [] {
      NoLinks(edges[..|edges| - 1], j);
    }
  }

  /** Orders the tables outside the pre-joined units; each choice has the best score. */
  method GreedyOrder(tableFilters: seq<seq<Expr>>, edges: seq<Edge>, preJoined: set<nat>) returns (order: seq<nat>)
    requires forall i <- preJoined :: i < |tableFilters|
    ensures NoDup(order)
    ensures forall j: nat :: j in order <==> j < |tableFilters| && j !in preJoined
    ensures forall k | 0 <= k < |order| :: BestChoice(tableFilters, edges, preJoined, order[..k], order[k])
  {
    order := [];
    var n := |tableFilters|;
    var best := -1;
    for j := 0 to n
      invariant best == -1 ==> forall k: nat | k < j :: k in preJoined
      invariant best != -1 ==> 0 <= best < j && best !in preJoined
      invariant best != -1 ==> forall k: nat | k < j && k !in preJoined :: |tableFilters[k]| <= |tableFilters[best]|
    {
      if j !in preJoined && (best < 0 || |tableFilters[j]| > |tableFilters[best]|) {
        best := j;
      }
    }
    if best >= 0 {
      order := [best];
      FirstIsBest(tableFilters, edges, preJoined, best);
    }
    PlacedCount(n, order, preJoined);
    while |order| + |preJoined| < n
      invariant NoDup(order)
      invariant forall j <- order :: j < n && j !in preJoined
      invariant forall k | 0 <= k < |order| :: BestChoice(tableFilters, edges, preJoined, order[..k], order[k])
      invariant |order| + |preJoined| < n <==> exists j :: 0 <= j < n && j !in order && j !in preJoined
      decreases n - |order|
    {
      var next := BestNext(tableFilters, edges, preJoined, order);
      ghost var before := order;
      order := order + [next];
      forall k | 0 <= k < |order|
        ensures BestChoice(tableFilters, edges, preJoined, order[..k], order[k])
      {
        assert order[..k] == if k < |before| then before[..k] else before;
      }
      PlacedCount(n, order, preJoined);
    }
  }

  lemma FirstIsBest(tableFilters: seq<seq<Expr>>, edges: seq<Edge>, preJoined: set<nat>, best: nat)
    requires best < |tableFilters|
    requires forall k: nat | k < |tableFilters| && k !in preJoined :: |tableFilters[k]| <= |tableFilters[best]|
    ensures BestChoice(tableFilters, edges, preJoined, [best][..0], [best][0])
  {
    assert [best][..0] == [] && Elements<nat>([]) == {};
    forall k: nat | k < |tableFilters| && k !in preJoined
      ensures Score(tableFilters, edges, k, {}) <= Score(tableFilters, edges, best, {})
    {
      NoLinks(edges, k);
      NoLinks(edges, best);
    }
  }

  method BestNext(tableFilters: seq<seq<Expr>>, edges: seq<Edge>, preJoined: set<nat>, order: seq<nat>)
    returns (next: nat)
    requires exists j: nat :: j < |tableFilters| && j !in order && j !in preJoined
    ensures next < |tableFilters| && next !in order && next !in preJoined
    ensures BestChoice(tableFilters, edges, preJoined, order, next)
  {
    var joined := Elements(order);
    var nextIdx, nextScore := -1, -1;
    for j := 0 to |tableFilters|
      invariant nextIdx == -1 ==> nextScore == -1 && forall k: nat | k < j :: k in order || k in preJoined
      invariant nextIdx != -1 ==> 0 <= nextIdx < j && nextIdx !in order && nextIdx !in preJoined
      invariant nextIdx != -1 ==> nextScore == Score(tableFilters, edges, nextIdx, joined)
      invariant nextIdx != -1 ==>
        forall k: nat | k < j && k !in order && k !in preJoined :: Score(tableFilters, edges, k, joined) <= nextScore
    {
      if j in order || j in preJoined {
        continue;
      }
      var score := |tableFilters[j]|;
      for q := 0 to |edges|
        invariant score == |tableFilters[j]| + 1000 * Links(edges[..q], j, joined)
      {
        assert edges[..q + 1][..q] == edges[..q];
        if (edges[q].0 == j && edges[q].1 in joined) || (edges[q].1 == j && edges[q].0 in joined) {
          score := score + 1000;
        }
      }
      assert edges[..|edges|] == edges;
      if score > nextScore {
        nextScore := score;
        nextIdx := j;
      }
    }
    next := nextIdx;
  }
}

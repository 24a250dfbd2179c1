/** What rows a two-table join has, by the pairs of row numbers it is made of. */
module JoinMeaning {
  import opened Values
  import opened Expressions
  import opened HashJoin

  /** A left row number and a right one, or the number of right rows for a NULL-extended row. */
  datatype Pair = Pair(left: nat, right: nat)

  predicate Earlier(p: Pair, q: Pair) {
    p.left < q.left || (p.left == q.left && p.right < q.right)
  }

  ghost predicate Ascending(pairs: seq<Pair>) {
    forall i, j :: 0 <= i < j < |pairs| ==> Earlier(pairs[i], pairs[j])
  }

  /** The pair is one of the join's: it matches, or for a LEFT JOIN stands for a left row that matches none. */
  ghost predicate Belongs(kind: Kind, lefts: seq<Row>, rights: seq<Row>, m: (Row, Row) -> bool, p: Pair) {
    && p.left < |lefts|
    && ((p.right < |rights| && m(lefts[p.left], rights[p.right]))
        || (p.right == |rights| && kind.Left? && forall r <- rights :: !m(lefts[p.left], r)))
  }

  function RowOf(lefts: seq<Row>, rights: seq<Row>, merge: (Row, Row) -> Row, nullRight: Row, p: Pair): Row
    requires p.left < |lefts|
  {
    merge(lefts[p.left], if p.right < |rights| then rights[p.right] else nullRight)
  }

  /** The rows are those of the join's pairs, each once, in the order of the row numbers. */
  ghost predicate Lists(kind: Kind, lefts: seq<Row>, rights: seq<Row>, m: (Row, Row) -> bool, merge: (Row, Row) -> Row,
      nullRight: Row, pairs: seq<Pair>, rows: seq<Row>)
  {
    && Ascending(pairs)
    && (forall p :: p in pairs <==> Belongs(kind, lefts, rights, m, p))
    && |rows| == |pairs|
    && forall k :: 0 <= k < |pairs| ==>
      pairs[k].left < |lefts| && rows[k] == RowOf(lefts, rights, merge, nullRight, pairs[k])
  }

  /** The right row numbers one left row matches, in order. */
  ghost predicate Picks(left: Row, rights: seq<Row>, m: (Row, Row) -> bool, numbers: seq<nat>) {
    && (forall i, j :: 0 <= i < j < |numbers| ==> numbers[i] < numbers[j])
    && forall j: nat :: j in numbers <==> j < |rights| && m(left, rights[j])
  }

  lemma {:induction false} MatchesListed(left: Row, rights: seq<Row>, m: (Row, Row) -> bool, merge: (Row, Row) -> Row)
      returns (numbers: seq<nat>)
    ensures Picks(left, rights, m, numbers)
    ensures MergesOf(left, rights, merge, numbers, MatchesOf(left, rights, m, merge))
  {
    numbers := [];
    if rights != [] {
      var n := |rights| - 1;
      var before := MatchesListed(left, rights[..n], m, merge);
      PicksNext(left, rights, m, before);
      numbers := before + if m(left, rights[n]) then [n] else [];
    }
  }

  ghost predicate MergesOf(left: Row, rights: seq<Row>, merge: (Row, Row) -> Row, numbers: seq<nat>, rows: seq<Row>) {
    && |rows| == |numbers|
    && forall k :: 0 <= k < |numbers| ==> numbers[k] < |rights| && rows[k] == merge(left, rights[numbers[k]])
  }

  lemma PicksNext(left: Row, rights: seq<Row>, m: (Row, Row) -> bool, before: seq<nat>)
    requires rights != [] && Picks(left, rights[..|rights| - 1], m, before)
    ensures Picks(left, rights, m, before + if m(left, rights[|rights| - 1]) then [|rights| - 1] else [])
  {
    var n := |rights| - 1;
    assert forall k :: 0 <= k < |before| ==> before[k] in before;
    assert forall j: nat :: j < n ==> rights[..n][j] == rights[j];
  }

  /** The pairs one left row brings. */
  function PairsOf(i: nat, numbers: seq<nat>, kind: Kind, width: nat): seq<Pair> {
    if numbers == [] && kind.Left? then [Pair(i, width)]
    else seq(|numbers|, k requires 0 <= k < |numbers| => Pair(i, numbers[k]))
  }

  lemma PairsBelong(kind: Kind, lefts: seq<Row>, i: nat, rights: seq<Row>, m: (Row, Row) -> bool, numbers: seq<nat>)
    requires i < |lefts| && Picks(lefts[i], rights, m, numbers)
    ensures
      var pairs := PairsOf(i, numbers, kind, |rights|);
      Ascending(pairs) && forall p: Pair :: p in pairs <==> p.left == i && Belongs(kind, lefts, rights, m, p)
  {
    var pairs := PairsOf(i, numbers, kind, |rights|);
    if numbers == [] {
      forall r <- rights
        ensures !m(lefts[i], r)
      {
        var j: nat :| j < |rights| && rights[j] == r;
        assert j !in numbers;
      }
    } else {
      assert numbers[0] in numbers;
      assert forall k :: 0 <= k < |numbers| ==> numbers[k] in numbers;
      forall p: Pair | p.left == i && Belongs(kind, lefts, rights, m, p)
        ensures p in pairs
      {
        assert m(lefts[i], rights[numbers[0]]);
        var k :| 0 <= k < |numbers| && numbers[k] == p.right;
        assert pairs[k] == p;
      }
    }
  }

  /** The rows of a join are its pairs' rows: every matching pair once and, for a LEFT JOIN, every left row without
      a match once, in the order of the row numbers. */
  lemma {:induction false} JoinListed(kind: Kind, lefts: seq<Row>, rights: seq<Row>, m: (Row, Row) -> bool,
      merge: (Row, Row) -> Row, nullRight: Row) returns (pairs: seq<Pair>)
    ensures Lists(kind, lefts, rights, m, merge, nullRight, pairs, JoinRows(kind, lefts, rights, m, merge, nullRight))
  {
    pairs := [];
    if lefts != [] {
      var n := |lefts| - 1;
      var before := JoinListed(kind, lefts[..n], rights, m, merge, nullRight);
      var numbers := MatchesListed(lefts[n], rights, m, merge);
      var last := PairsOf(n, numbers, kind, |rights|);
      PairsBelong(kind, lefts, n, rights, m, numbers);
      pairs := before + last;
      NextLeft(kind, lefts, rights, m, merge, nullRight, before, last,
               JoinRows(kind, lefts[..n], rights, m, merge, nullRight),
               LeftRows(kind, lefts[n], MatchesOf(lefts[n], rights, m, merge), merge, nullRight));
    }
  }

  lemma NextLeft(kind: Kind, lefts: seq<Row>, rights: seq<Row>, m: (Row, Row) -> bool, merge: (Row, Row) -> Row,
      nullRight: Row, before: seq<Pair>, last: seq<Pair>, rows: seq<Row>, more: seq<Row>)
    requires lefts != []
    requires Lists(kind, lefts[..|lefts| - 1], rights, m, merge, nullRight, before, rows)
    requires Ascending(last)
    requires forall p: Pair :: p in last <==> p.left == |lefts| - 1 && Belongs(kind, lefts, rights, m, p)
    requires |more| == |last|
    requires forall k :: 0 <= k < |last| ==>
      last[k].left < |lefts| && more[k] == RowOf(lefts, rights, merge, nullRight, last[k])
    ensures Lists(kind, lefts, rights, m, merge, nullRight, before + last, rows + more)
  {
    NextPairs(kind, lefts, rights, m, before, last);
    var n := |lefts| - 1;
    assert forall k :: 0 <= k < |before| ==> lefts[..n][before[k].left] == lefts[before[k].left];
  }

  lemma NextPairs(kind: Kind, lefts: seq<Row>, rights: seq<Row>, m: (Row, Row) -> bool, before: seq<Pair>,
      last: seq<Pair>)
    requires lefts != [] && Ascending(before) && Ascending(last)
    requires forall p: Pair :: p in before <==> Belongs(kind, lefts[..|lefts| - 1], rights, m, p)
    requires forall p: Pair :: p in last <==> p.left == |lefts| - 1 && Belongs(kind, lefts, rights, m, p)
    ensures Ascending(before + last)
    ensures forall p: Pair :: p in before + last <==> Belongs(kind, lefts, rights, m, p)
  {
    var n := |lefts| - 1;
    forall p: Pair
      ensures p in before <==> p.left < n && Belongs(kind, lefts, rights, m, p)
    {
      assert p in before <==> Belongs(kind, lefts[..n], rights, m, p);
    }
    assert forall k :: 0 <= k < |before| ==> before[k] in before;
    assert forall k :: 0 <= k < |last| ==> last[k] in last;
  }
}

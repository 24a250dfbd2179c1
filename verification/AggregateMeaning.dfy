/** What the five aggregates are, by the values of the rows alone; for the form that collects rows and for
    the running accumulators. */
module AggregateMeaning {
  import opened Collections
  import opened Values
  import opened Expressions
  import opened Aggregates
  import opened GroupBy
  import Sort = SortOrder

  // ---- COUNT ----

  /** The rows whose argument is not NULL. */
  function Filled(arg: Row -> Value, rows: seq<Row>): set<nat> {
    set k: nat | k < |rows| && arg(rows[k]) != Null
  }

  lemma {:induction false} ArgumentsCount(arg: Row -> Value, rows: seq<Row>)
    ensures |Arguments(arg, rows)| == |Filled(arg, rows)|
  {
    if rows == [] {
      assert Filled(arg, rows) == {};
    } else {
      var n := |rows| - 1;
      ArgumentsCount(arg, rows[..n]);
      var before := Filled(arg, rows[..n]);
      assert Filled(arg, rows) == if arg(rows[n]) != Null then before + {n} else before;
      AddOne(before, n);
    }
  }

  lemma {:induction false} ArgumentsAre(arg: Row -> Value, rows: seq<Row>, v: Value)
    ensures v in Arguments(arg, rows) <==> v != Null && exists row <- rows :: arg(row) == v
  {
    if rows != [] {
      var n := |rows| - 1;
      ArgumentsAre(arg, rows[..n], v);
      assert rows == rows[..n] + [rows[n]];
    }
  }

  // ---- SUM and AVG ----

  /** The integer a value counts for in a sum. */
  function IntOf(v: Value): int {
    match v
    case Int(i) => i
    case Bool(b) => if b then 1 else 0
    case _ => 0
  }

  lemma {:induction false} IntTotalIs(lib: Library, vs: seq<Value>)
    ensures IntTotal(lib, vs) == Total(vs, IntOf)
  {
    if vs != [] {
      IntTotalIs(lib, vs[..|vs| - 1]);
    }
  }

  /** Floats that are reals. */
  ghost predicate ExactFloats(lib: Library) {
    && (forall x, y :: lib.add(x, y) == x + y)
    && (forall x, y :: y != 0.0 ==> lib.div(x, y) == x / y)
    && forall i: Int64 :: lib.intToFloat(i) == i as real
  }

  /** The number a value is taken for. */
  function NumberOf(lib: Library, v: Value): real {
    match v
    case Int(i) => i as real
    case Bool(b) => if b then 1.0 else 0.0
    case Real(r) => r
    case Text(s) => if lib.parseFloat(s).Some? then lib.parseFloat(s).value else 0.0
    case Null => 0.0
  }

  function RealTotal(lib: Library, vs: seq<Value>): real {
    if vs == [] then 0.0 else RealTotal(lib, vs[..|vs| - 1]) + NumberOf(lib, vs[|vs| - 1])
  }

  lemma {:induction false} FloatTotalsAre(lib: Library, vs: seq<Value>)
    requires ExactFloats(lib)
    ensures AsFloats(lib, vs) == RealTotal(lib, vs)
    ensures FloatTotal(lib, vs) + IntTotal(lib, vs) as real == RealTotal(lib, vs)
  {
    if vs != [] {
      FloatTotalsAre(lib, vs[..|vs| - 1]);
    }
  }

  ghost predicate RenderApart(lib: Library, kept: seq<Value>) {
    forall i, j :: 0 <= i < j < |kept| ==> Render(lib, kept[i]) != Render(lib, kept[j])
  }

  lemma RenderApartNext(lib: Library, kept: seq<Value>, v: Value)
    requires RenderApart(lib, kept) && Render(lib, v) !in Renderings(lib, kept)
    ensures RenderApart(lib, kept + [v])
  {
    forall i | 0 <= i < |kept|
      ensures Render(lib, kept[i]) in Renderings(lib, kept)
    {
      assert kept[i] in kept;
    }
  }

  /** What DISTINCT keeps: values of the list, one of each rendering. */
  lemma {:induction false} FirstRenderedMeans(lib: Library, vs: seq<Value>)
    ensures (forall v <- FirstRendered(lib, vs) :: v in vs) && RenderApart(lib, FirstRendered(lib, vs))
    ensures Renderings(lib, FirstRendered(lib, vs)) == Renderings(lib, vs)
  {
    if vs != [] {
      var front, v := vs[..|vs| - 1], vs[|vs| - 1];
      FirstRenderedMeans(lib, front);
      assert vs == front + [v];
      RenderingsNext(lib, front, v);
      KeepNext(lib, front, v, FirstRendered(lib, front));
    }
  }

  lemma KeepNext(lib: Library, front: seq<Value>, v: Value, before: seq<Value>)
    requires RenderApart(lib, before) && Renderings(lib, before) == Renderings(lib, front)
    ensures var kept := before + (if Render(lib, v) in Renderings(lib, front) then [] else [v]);
      RenderApart(lib, kept) && Renderings(lib, kept) == Renderings(lib, front) + {Render(lib, v)}
  {
    if Render(lib, v) in Renderings(lib, front) {
      assert before + [] == before;
    } else {
      RenderApartNext(lib, before, v);
      RenderingsNext(lib, before, v);
    }
  }

  // ---- MIN and MAX ----

  /** All values are numbers, or none is. */
  ghost predicate Homogeneous(lib: Library, vs: seq<Value>) {
    exists numeric: bool :: OfKind(lib, numeric, vs)
  }

  ghost predicate OfKind(lib: Library, numeric: bool, vs: seq<Value>) {
    forall v <- vs :: Sort.Fits(lib, numeric, v)
  }

  ghost predicate IsLeast(lib: Library, vs: seq<Value>, v: Value) {
    v in vs && forall a <- vs :: Compare(lib, v, a) <= 0
  }

  ghost predicate IsGreatest(lib: Library, vs: seq<Value>, v: Value) {
    v in vs && forall a <- vs :: Compare(lib, v, a) >= 0
  }

  lemma {:induction false} LeastIs(lib: Library, numeric: bool, vs: seq<Value>)
    requires vs != [] && Null !in vs && OfKind(lib, numeric, vs)
    ensures IsLeast(lib, vs, Extreme(lib, Min, vs))
  {
    var before, v := vs[..|vs| - 1], vs[|vs| - 1];
    assert vs == before + [v] && v in vs;
    Sort.CompareAntisymmetric(lib, v, v);
    if before != [] {
      LeastIs(lib, numeric, before);
      LeastNext(lib, numeric, before, v, Extreme(lib, Min, before));
    }
  }

  lemma {:induction false} GreatestIs(lib: Library, numeric: bool, vs: seq<Value>)
    requires vs != [] && Null !in vs && OfKind(lib, numeric, vs)
    ensures IsGreatest(lib, vs, Extreme(lib, Max, vs))
  {
    var before, v := vs[..|vs| - 1], vs[|vs| - 1];
    assert vs == before + [v] && v in vs;
    Sort.CompareAntisymmetric(lib, v, v);
    if before != [] {
      GreatestIs(lib, numeric, before);
      GreatestNext(lib, numeric, before, v, Extreme(lib, Max, before));
    }
  }

  lemma LeastNext(lib: Library, numeric: bool, before: seq<Value>, v: Value, least: Value)
    requires IsLeast(lib, before, least) && Null !in before + [v] && OfKind(lib, numeric, before + [v])
    ensures IsLeast(lib, before + [v], if Compare(lib, v, least) < 0 then v else least)
  {
    var all := before + [v];
    assert v in all && least in all;
    forall a <- all
      ensures Compare(lib, if Compare(lib, v, least) < 0 then v else least, a) <= 0
    {
      Sort.CompareAntisymmetric(lib, v, least);
      Sort.CompareAntisymmetric(lib, v, v);
      if a in before && Compare(lib, v, least) < 0 {
        Sort.CompareTransitive(lib, numeric, v, least, a);
      }
    }
  }

  lemma GreatestNext(lib: Library, numeric: bool, before: seq<Value>, v: Value, greatest: Value)
    requires IsGreatest(lib, before, greatest) && Null !in before + [v] && OfKind(lib, numeric, before + [v])
    ensures IsGreatest(lib, before + [v], if Compare(lib, v, greatest) > 0 then v else greatest)
  {
    var all := before + [v];
    assert v in all && greatest in all;
    forall a <- all
      ensures Compare(lib, if Compare(lib, v, greatest) > 0 then v else greatest, a) >= 0
    {
      Sort.CompareAntisymmetric(lib, v, greatest);
      Sort.CompareAntisymmetric(lib, v, v);
      if a in before && Compare(lib, v, greatest) > 0 {
        Sort.CompareAntisymmetric(lib, greatest, a);
        Sort.CompareAntisymmetric(lib, v, a);
        Sort.CompareTransitive(lib, numeric, a, greatest, v);
      }
    }
  }

  // ---- the aggregates ----

  /** The arguments of a group: those of its rows that are not NULL, and how many. */
  ghost predicate AreArguments(arg: Row -> Value, rows: seq<Row>, vs: seq<Value>) {
    && |vs| == |Filled(arg, rows)|
    && forall v :: v in vs <==> v != Null && exists row <- rows :: arg(row) == v
  }

  /** `value` is what the aggregate of the rows should be, `distinct` being the number of different arguments
      that COUNT(DISTINCT) counts. */
  ghost predicate Means(lib: Library, agg: Aggregate, arg: Row -> Value, rows: seq<Row>, vs: seq<Value>, distinct: nat,
      value: Value)
  {
    match agg.name
    case Count => value.Int? && value.i == if agg.star then |rows| else if agg.distinct then distinct else |vs|
    case Sum => if vs == [] then value == Null else exists kept :: SumsUp(lib, agg.distinct, vs, kept, value)
    case Avg =>
      if vs == [] then value == Null
      else ExactFloats(lib) ==> value == Real(RealTotal(lib, vs) / |vs| as real)
    case Min => if vs == [] then value == Null else Homogeneous(lib, vs) ==> IsLeast(lib, vs, value)
    case Max => if vs == [] then value == Null else Homogeneous(lib, vs) ==> IsGreatest(lib, vs, value)
  }

  /** All values, or for DISTINCT one of each rendering. */
  ghost predicate IsKept(lib: Library, distinct: bool, vs: seq<Value>, kept: seq<Value>) {
    if distinct then
      && (forall v <- kept :: v in vs) && Renderings(lib, kept) == Renderings(lib, vs)
      && RenderApart(lib, kept)
    else kept == vs
  }

  /** `value` is the sum of what is kept. Integers and booleans add up to an int64 that wraps around, anything
      else to a float. */
  ghost predicate SumsUp(lib: Library, distinct: bool, vs: seq<Value>, kept: seq<Value>, value: Value) {
    && IsKept(lib, distinct, vs, kept)
    && if forall v <- kept :: v.Int? || v.Bool? then value == Int(Wrap(Total(kept, IntOf)))
       else
         && value.Real?
         && (ExactFloats(lib) && -TWO_63 <= Total(kept, IntOf) < TWO_63 ==> value.r == RealTotal(lib, kept))
  }

  lemma SummarizeMeans(lib: Library, agg: Aggregate, arg: Row -> Value, rows: Rows, vs: seq<Value>, distinct: nat)
    requires vs == Arguments(arg, rows) && distinct < TWO_63
    ensures Means(lib, agg, arg, rows, vs, distinct, Summarize(lib, agg, |rows|, vs, distinct))
  {
    if agg.name.Sum? {
      SumMeans(lib, agg, vs);
    } else if agg.name.Avg? && ExactFloats(lib) {
      FloatTotalsAre(lib, vs);
    } else if (agg.name.Min? || agg.name.Max?) && vs != [] && Homogeneous(lib, vs) {
      var numeric: bool :| OfKind(lib, numeric, vs);
      LeastIs(lib, numeric, vs);
      GreatestIs(lib, numeric, vs);
    }
  }

  lemma KeptMeans(lib: Library, agg: Aggregate, vs: seq<Value>)
    requires vs != []
    ensures Kept(lib, agg, vs) != [] && IsKept(lib, agg.distinct, vs, Kept(lib, agg, vs))
  {
    FirstRenderedMeans(lib, vs);
    assert Render(lib, vs[0]) in Renderings(lib, vs);
  }

  lemma SumMeans(lib: Library, agg: Aggregate, vs: seq<Value>)
    ensures vs == [] ==> SumOf(lib, Kept(lib, agg, vs)) == Null
    ensures vs != [] ==> SumsUp(lib, agg.distinct, vs, Kept(lib, agg, vs), SumOf(lib, Kept(lib, agg, vs)))
  {
    var kept := Kept(lib, agg, vs);
    IntTotalIs(lib, kept);
    if vs != [] {
      KeptMeans(lib, agg, vs);
    }
    if ExactFloats(lib) {
      FloatTotalsAre(lib, kept);
    }
  }

  /** How many different arguments each form counts. */
  function Distinct(lib: Library, collected: bool, vs: seq<Value>): nat {
    if collected then |Elements(vs)| else |Renderings(lib, vs)|
  }

  lemma FormsMean(lib: Library, agg: Aggregate, arg: Row -> Value, rows: Rows)
    ensures var vs := Arguments(arg, rows);
      && AreArguments(arg, rows, vs)
      && Means(lib, agg, arg, rows, vs, Distinct(lib, true, vs), CollectedValue(lib, agg, arg, rows))
      && Means(lib, agg, arg, rows, vs, Distinct(lib, false, vs), RunningValue(lib, agg, arg, rows))
  {
    var vs := Arguments(arg, rows);
    ArgumentsCount(arg, rows);
    forall v
      ensures v in vs <==> v != Null && exists row <- rows :: arg(row) == v
    {
      ArgumentsAre(arg, rows, v);
    }
    ElementsAreFewer(vs);
    RenderingsAreFewer(lib, vs);
    SummarizeMeans(lib, agg, arg, rows, vs, |Elements(vs)|);
    SummarizeMeans(lib, agg, arg, rows, vs, |Renderings(lib, vs)|);
  }

  /** evalAggregateExpr on the collected rows of a group. */
  method EvaluateCollected(lib: Library, agg: Aggregate, arg: Row -> Value, rows: Rows)
    returns (value: Value)
    ensures
      var vs := Arguments(arg, rows);
      AreArguments(arg, rows, vs) && Means(lib, agg, arg, rows, vs, Distinct(lib, true, vs), value)
  {
    value := EvalAggregate(lib, agg, arg, rows);
    FormsMean(lib, agg, arg, rows);
  }

  /** A running accumulator fed the rows of a group one by one, and finished. */
  method EvaluateRunning(lib: Library, agg: Aggregate, arg: Row -> Value, rows: Rows)
    returns (value: Value)
    ensures
      var vs := Arguments(arg, rows);
      AreArguments(arg, rows, vs) && Means(lib, agg, arg, rows, vs, Distinct(lib, false, vs), value)
  {
    var accum := new Accumulator();
    for i := 0 to |rows|
      invariant accum.Contents() == Fold(lib, agg, arg, rows[..i])
    {
      assert rows[..i + 1][..i] == rows[..i];
      accum.Feed(lib, agg, arg, rows[i]);
    }
    assert rows[..|rows|] == rows;
    FoldMeans(lib, agg, arg, rows);
    FormsMean(lib, agg, arg, rows);
    value := Final(lib, agg, accum.Contents());
  }
}

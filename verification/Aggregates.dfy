/** What the five aggregates mean on the rows of one group, and the slow path that computes
    them from collected rows. */
module Aggregates {
  import opened Collections
  import opened Values
  import opened Expressions

  datatype AggregateName = Count | Sum | Avg | Min | Max

  /** A direct call of an aggregate. What its argument is on a row, NULL when it fails, is
      passed beside it as a function. */
  datatype Aggregate = Aggregate(name: AggregateName, star: bool, distinct: bool)

  /** A Go slice of rows: its length is an int. */
  type Rows = rows: seq<Row> | |rows| < TWO_63

  // ---- reference meaning ----

  /** The non-NULL arguments, in row order. */
  function Arguments(arg: Row -> Value, rows: seq<Row>): (vs: seq<Value>)
    ensures |vs| <= |rows|
    ensures Null !in vs
  {
    if rows == [] then []
    else
      var n := |rows| - 1;
      var v := arg(rows[n]);
      Arguments(arg, rows[..n]) + (if v == Null then [] else [v])
  }

  function Renderings(lib: Library, vs: seq<Value>): set<string> {
    set v | v in vs :: Render(lib, v)
  }

  lemma RenderingsNext(lib: Library, vs: seq<Value>, v: Value)
    ensures Renderings(lib, vs + [v]) == Renderings(lib, vs) + {Render(lib, v)}
  {
    assert forall w :: w in vs + [v] <==> w in vs || w == v;
  }

  /** The first value of every rendering: what DISTINCT keeps. */
  function FirstRendered(lib: Library, vs: seq<Value>): (kept: seq<Value>)
    ensures |kept| == |Renderings(lib, vs)|
  {
    if vs == [] then
      assert Renderings(lib, vs) == {};
      []
    else
      var n := |vs| - 1;
      RenderingsNext(lib, vs[..n], vs[n]);
      AddOne(Renderings(lib, vs[..n]), Render(lib, vs[n]));
      assert vs == vs[..n] + [vs[n]];
      FirstRendered(lib, vs[..n]) + (if Render(lib, vs[n]) in Renderings(lib, vs[..n]) then [] else [vs[n]])
  }

  function Kept(lib: Library, agg: Aggregate, vs: seq<Value>): (kept: seq<Value>)
    ensures |kept| <= |vs|
  {
    if agg.distinct then
      RenderingsAreFewer(lib, vs);
      FirstRendered(lib, vs)
    else vs
  }

  lemma {:induction false} RenderingsAreFewer(lib: Library, vs: seq<Value>)
    ensures |Renderings(lib, vs)| <= |vs|
  {
    if vs != [] {
      var n := |vs| - 1;
      RenderingsAreFewer(lib, vs[..n]);
      RenderingsNext(lib, vs[..n], vs[n]);
      AddOne(Renderings(lib, vs[..n]), Render(lib, vs[n]));
      assert vs == vs[..n] + [vs[n]];
    }
  }

  /** The mathematical sum of the integers and booleans of a list. */
  function IntTotal(lib: Library, vs: seq<Value>): int {
    if vs == [] then 0
    else
      var n := |vs| - 1;
      IntTotal(lib, vs[..n]) + (if IsIntVal(vs[n]) then ToInt64(lib, vs[n]) else 0)
  }

  /** The other values, added as floats from left to right. */
  function FloatTotal(lib: Library, vs: seq<Value>): real {
    if vs == [] then 0.0
    else
      var n := |vs| - 1;
      if IsIntVal(vs[n]) then FloatTotal(lib, vs[..n]) else lib.add(FloatTotal(lib, vs[..n]), ToFloat(lib, vs[n]))
  }

  predicate AllInts(vs: seq<Value>) {
    forall v <- vs :: IsIntVal(v)
  }

  function SumOf(lib: Library, vs: seq<Value>): Value {
    if vs == [] then Null
    else if AllInts(vs) then Int(Wrap(IntTotal(lib, vs)))
    else Real(lib.add(FloatTotal(lib, vs), lib.intToFloat(Wrap(IntTotal(lib, vs)))))
  }

  /** Every value as a float, added from left to right. */
  function AsFloats(lib: Library, vs: seq<Value>): real {
    if vs == [] then 0.0
    else
      var n := |vs| - 1;
      lib.add(AsFloats(lib, vs[..n]), ToFloat(lib, vs[n]))
  }

  function AvgOf(lib: Library, vs: seq<Value>): Value
    requires |vs| < TWO_63
  {
    if vs == [] then Null else Real(lib.div(AsFloats(lib, vs), lib.intToFloat(|vs|)))
  }

  predicate Beats(lib: Library, name: AggregateName, v: Value, w: Value) {
    if name.Min? then Compare(lib, v, w) < 0 else Compare(lib, v, w) > 0
  }

  /** The running minimum or maximum of a list. */
  function Extreme(lib: Library, name: AggregateName, vs: seq<Value>): Value {
    if vs == [] then Null
    else
      var n := |vs| - 1;
      var best := Extreme(lib, name, vs[..n]);
      if best == Null || Beats(lib, name, vs[n], best) then vs[n] else best
  }

  ghost predicate BeatsIsOrder(lib: Library, name: AggregateName, vs: seq<Value>) {
    && (forall a, b, c | a in vs && b in vs && c in vs ::
          !Beats(lib, name, a, b) && !Beats(lib, name, b, c) ==> !Beats(lib, name, a, c))
    && forall a, b | a in vs && b in vs :: Beats(lib, name, a, b) ==> !Beats(lib, name, b, a)
  }

  /** The value at `i` is the first of the list that no other value beats. */
  ghost predicate FirstBest(lib: Library, name: AggregateName, vs: seq<Value>, i: nat) {
    && i < |vs|
    && (forall j :: 0 <= j < |vs| ==> !Beats(lib, name, vs[j], vs[i]))
    && forall j :: 0 <= j < i ==> Beats(lib, name, vs[i], vs[j])
  }

  lemma BestStays(lib: Library, name: AggregateName, vs: seq<Value>, v: Value, i: nat)
    requires FirstBest(lib, name, vs, i) && !Beats(lib, name, v, vs[i])
    ensures FirstBest(lib, name, vs + [v], i)
  {
  }

  /** A value that beats the best so far beats everything so far. */
  lemma BestMoves(lib: Library, name: AggregateName, vs: seq<Value>, v: Value, i: nat)
    requires FirstBest(lib, name, vs, i) && Beats(lib, name, v, vs[i]) && BeatsIsOrder(lib, name, vs + [v])
    ensures FirstBest(lib, name, vs + [v], |vs|)
  {
    var all := vs + [v];
    assert v in all && vs[i] in all;
    forall j | 0 <= j < |vs|
      ensures Beats(lib, name, v, vs[j]) && !Beats(lib, name, vs[j], v)
    {
      assert vs[j] in all;
    }
  }

  /** On values where "not beaten by" is transitive the result is the first value of the list
      that no other value beats. */
  lemma {:induction false} ExtremeIsFirstBest(lib: Library, name: AggregateName, vs: seq<Value>) returns (i: nat)
    requires vs != [] && Null !in vs
    requires BeatsIsOrder(lib, name, vs)
    ensures FirstBest(lib, name, vs, i) && Extreme(lib, name, vs) == vs[i]
  {
    var n := |vs| - 1;
    var before, v := vs[..n], vs[n];
    assert vs == before + [v];
    assert forall w :: w in before ==> w in vs;
    if n == 0 {
      i := 0;
      assert v in vs;
    } else {
      i := ExtremeIsFirstBest(lib, name, before);
      if Beats(lib, name, v, before[i]) {
        BestMoves(lib, name, before, v, i);
        i := n;
      } else {
        BestStays(lib, name, before, v, i);
      }
    }
  }

  /** The value of an aggregate whose DISTINCT arguments count as `distinct` many. */
  function Summarize(lib: Library, agg: Aggregate, rowCount: nat, vs: seq<Value>, distinct: nat): Value
    requires rowCount < TWO_63 && |vs| < TWO_63 && distinct < TWO_63
  {
    match agg.name
    case Count => Int(if agg.star then rowCount else if agg.distinct then distinct else |vs|)
    case Sum => SumOf(lib, Kept(lib, agg, vs))
    case Avg => AvgOf(lib, vs)
    case Min => Extreme(lib, agg.name, vs)
    case Max => Extreme(lib, agg.name, vs)
  }

  /** evalAggregateExpr: COUNT(DISTINCT) counts the values themselves. */
  function CollectedValue(lib: Library, agg: Aggregate, arg: Row -> Value, rows: Rows): Value {
    var vs := Arguments(arg, rows);
    ElementsAreFewer(vs);
    Summarize(lib, agg, |rows|, vs, |Elements(vs)|)
  }

  /** The accumulators: COUNT(DISTINCT) counts the renderings. */
  function RunningValue(lib: Library, agg: Aggregate, arg: Row -> Value, rows: Rows): Value {
    var vs := Arguments(arg, rows);
    RenderingsAreFewer(lib, vs);
    Summarize(lib, agg, |rows|, vs, |Renderings(lib, vs)|)
  }

  lemma {:induction false} ElementsAreFewer<T>(vs: seq<T>)
    ensures |Elements(vs)| <= |vs|
  {
    if vs != [] {
      var n := |vs| - 1;
      ElementsAreFewer(vs[..n]);
      ElementsNext(vs[..n], vs[n]);
      assert vs == vs[..n] + [vs[n]];
    }
  }

  // ---- when the two agree ----

  ghost predicate RendersApart(lib: Library, vs: seq<Value>) {
    forall a, b | a in vs && b in vs :: Render(lib, a) == Render(lib, b) ==> a == b
  }

  ghost predicate CountsDistinct(agg: Aggregate) {
    agg.name.Count? && agg.distinct && !agg.star
  }

  lemma RendersApartNext(lib: Library, vs: seq<Value>, v: Value)
    ensures RendersApart(lib, vs + [v])
       <==> RendersApart(lib, vs) && (v in vs || Render(lib, v) !in Renderings(lib, vs))
  {
    var all := vs + [v];
    assert forall w :: w in all <==> w in vs || w == v;
    if v !in vs && Render(lib, v) in Renderings(lib, vs) {
      var w :| w in vs && Render(lib, w) == Render(lib, v);
      assert !RendersApart(lib, all);
    }
  }

  lemma ElementsNext<T>(vs: seq<T>, v: T)
    ensures Elements(vs + [v]) == Elements(vs) + {v}
  {
  }

  /** A list has fewer renderings than values exactly when two of its values render alike. */
  lemma {:induction false} RenderingsCountIff(lib: Library, vs: seq<Value>)
    ensures |Renderings(lib, vs)| <= |Elements(vs)|
    ensures |Renderings(lib, vs)| == |Elements(vs)| <==> RendersApart(lib, vs)
  {
    if vs == [] {
      assert Renderings(lib, vs) == {} && Elements(vs) == {};
    } else {
      var n := |vs| - 1;
      var v := vs[n];
      RenderingsCountIff(lib, vs[..n]);
      assert vs == vs[..n] + [v];
      RenderingsNext(lib, vs[..n], v);
      ElementsNext(vs[..n], v);
      AddOne(Renderings(lib, vs[..n]), Render(lib, v));
      AddOne(Elements(vs[..n]), v);
      RendersApartNext(lib, vs[..n], v);
      if v in vs[..n] {
        assert Render(lib, v) in Renderings(lib, vs[..n]);
      }
    }
  }

  /** The fast and the slow form of an aggregate agree on a group exactly when it is not a
      COUNT(DISTINCT) over two different values that render alike. */
  lemma FormsAgreeIff(lib: Library, agg: Aggregate, arg: Row -> Value, rows: Rows)
    ensures RunningValue(lib, agg, arg, rows) == CollectedValue(lib, agg, arg, rows)
       <==> (CountsDistinct(agg) ==> RendersApart(lib, Arguments(arg, rows)))
  {
    RenderingsCountIff(lib, Arguments(arg, rows));
  }

  /** The integer 1 and the text '1' are two distinct values with one rendering. */
  lemma MixedColumnCountsDiffer(lib: Library, one: Row, two: Row, arg: Row -> Value)
    requires arg(one) == Int(1) && arg(two) == Text("1")
    ensures var agg := Aggregate(Count, false, true);
      CollectedValue(lib, agg, arg, [one, two]) == Int(2) && RunningValue(lib, agg, arg, [one, two]) == Int(1)
  {
    var rows := [one, two];
    assert rows[..1] == [one] && [one][..0] == [];
    assert Arguments(arg, [one]) == [Int(1)];
    var vs := Arguments(arg, rows);
    assert vs == [Int(1), Text("1")];
    assert Elements(vs) == {Int(1), Text("1")};
    assert Render(lib, vs[0]) == "1";
    assert Renderings(lib, vs) == {"1"};
  }

  // ---- the slow path over one group ----

  /** evalAggregateExpr for the five aggregates over the collected rows of a group. */
  method EvalAggregate(lib: Library, agg: Aggregate, arg: Row -> Value, rows: Rows) returns (result: Value)
    ensures result == CollectedValue(lib, agg, arg, rows)
  {
    match agg.name {
      case Count => result := EvalCount(lib, agg, arg, rows);
      case Sum => result := EvalSum(lib, agg, arg, rows);
      case Avg => result := EvalAvg(lib, agg, arg, rows);
      case Min => result := EvalExtreme(lib, agg, arg, rows);
      case Max => result := EvalExtreme(lib, agg, arg, rows);
    }
  }

  lemma ArgumentsNext(arg: Row -> Value, rows: seq<Row>, i: nat)
    requires i < |rows|
    ensures var v := arg(rows[i]);
      Arguments(arg, rows[..i + 1]) == Arguments(arg, rows[..i]) + (if v == Null then [] else [v])
  {
    assert rows[..i + 1][..i] == rows[..i];
  }

  lemma KeptNext(lib: Library, agg: Aggregate, vs: seq<Value>, v: Value)
    ensures Kept(lib, agg, vs + [v])
         == if agg.distinct && Render(lib, v) in Renderings(lib, vs) then Kept(lib, agg, vs)
           else Kept(lib, agg, vs) + [v]
    ensures Renderings(lib, vs + [v]) == Renderings(lib, vs) + {Render(lib, v)}
  {
    assert (vs + [v])[..|vs|] == vs;
    RenderingsNext(lib, vs, v);
  }

  /** `sum += toInt64(v)` on an int64. */
  function AddInt(lib: Library, sum: Int64, v: Value): Int64 {
    Wrap(sum + ToInt64(lib, v))
  }

  lemma WrapNext(a: int, b: int)
    ensures Wrap(Wrap(a) + b) == Wrap(a + b)
  {
  }

  lemma TotalsNext(lib: Library, vs: seq<Value>, v: Value)
    ensures Wrap(IntTotal(lib, vs + [v]))
         == if IsIntVal(v) then AddInt(lib, Wrap(IntTotal(lib, vs)), v) else Wrap(IntTotal(lib, vs))
    ensures FloatTotal(lib, vs + [v])
         == if IsIntVal(v) then FloatTotal(lib, vs) else lib.add(FloatTotal(lib, vs), ToFloat(lib, v))
    ensures AllInts(vs + [v]) <==> AllInts(vs) && IsIntVal(v)
    ensures AsFloats(lib, vs + [v]) == lib.add(AsFloats(lib, vs), ToFloat(lib, v))
  {
    assert (vs + [v])[..|vs|] == vs;
    assert forall w :: w in vs + [v] <==> w in vs || w == v;
    WrapNext(IntTotal(lib, vs), ToInt64(lib, v));
  }

  /** What SUM's four running variables say about the values added so far. */
  ghost predicate SumTracks(lib: Library, vs: seq<Value>, sumInt: Int64, sumFloat: real, allInt: bool, hasValues: bool)
  {
    && sumInt == Wrap(IntTotal(lib, vs))
    && sumFloat == FloatTotal(lib, vs)
    && allInt == AllInts(vs)
    && hasValues == (vs != [])
  }

  lemma SumTracksNext(lib: Library, vs: seq<Value>, sumInt: Int64, sumFloat: real, allInt: bool, hasValues: bool,
      v: Value)
    requires SumTracks(lib, vs, sumInt, sumFloat, allInt, hasValues)
    ensures if IsIntVal(v)
      then SumTracks(lib, vs + [v], AddInt(lib, sumInt, v), sumFloat, allInt, true)
      else SumTracks(lib, vs + [v], sumInt, lib.add(sumFloat, ToFloat(lib, v)), false, true)
  {
    TotalsNext(lib, vs, v);
  }

  lemma ExtremeNext(lib: Library, name: AggregateName, vs: seq<Value>, v: Value)
    ensures var best := Extreme(lib, name, vs);
      Extreme(lib, name, vs + [v]) == if best == Null || Beats(lib, name, v, best) then v else best
  {
    assert (vs + [v])[..|vs|] == vs;
  }

  method EvalCount(lib: Library, agg: Aggregate, arg: Row -> Value, rows: Rows) returns (result: Value)
    requires agg.name.Count?
    ensures result == CollectedValue(lib, agg, arg, rows)
  {
    if agg.star {
      return Int(|rows|);
    }
    if agg.distinct {
      var seen: set<Value> := {};
      for i := 0 to |rows|
        invariant seen == Elements(Arguments(arg, rows[..i]))
      {
        ArgumentsNext(arg, rows, i);
        var v := arg(rows[i]);
        if v != Null {
          seen := seen + {v};
        }
      }
      assert rows[..|rows|] == rows;
      ElementsAreFewer(Arguments(arg, rows));
      return Int(|seen|);
    }
    var count := 0;
    for i := 0 to |rows|
      invariant count == |Arguments(arg, rows[..i])|
    {
      ArgumentsNext(arg, rows, i);
      if arg(rows[i]) != Null {
        count := count + 1;
      }
    }
    assert rows[..|rows|] == rows;
    result := Int(count);
  }

  /** The DISTINCT test: false when the value's rendering was met before. */
  method Admit(lib: Library, agg: Aggregate, v: Value, seen: set<string>, ghost vs: seq<Value>)
    returns (isNew: bool, seen': set<string>)
    requires agg.distinct ==> seen == Renderings(lib, vs)
    ensures agg.distinct ==> seen' == Renderings(lib, vs + [v])
    ensures Kept(lib, agg, vs + [v]) == if isNew then Kept(lib, agg, vs) + [v] else Kept(lib, agg, vs)
  {
    KeptNext(lib, agg, vs, v);
    isNew, seen' := true, seen;
    if agg.distinct {
      var key := Render(lib, v);
      if key in seen {
        return false, seen;
      }
      seen' := seen + {key};
    }
  }

  /** SUM's work on one non-NULL value. */
  method SumOne(lib: Library, agg: Aggregate, v: Value, ghost vs: seq<Value>, seen: set<string>,
      sumInt: Int64, sumFloat: real, allInt: bool, hasValues: bool)
    returns (seen': set<string>, sumInt': Int64, sumFloat': real, allInt': bool, hasValues': bool)
    requires agg.distinct ==> seen == Renderings(lib, vs)
    requires SumTracks(lib, Kept(lib, agg, vs), sumInt, sumFloat, allInt, hasValues)
    ensures agg.distinct ==> seen' == Renderings(lib, vs + [v])
    ensures SumTracks(lib, Kept(lib, agg, vs + [v]), sumInt', sumFloat', allInt', hasValues')
  {
    sumInt', sumFloat', allInt', hasValues' := sumInt, sumFloat, allInt, hasValues;
    var isNew;
    isNew, seen' := Admit(lib, agg, v, seen, vs);
    if isNew {
      SumTracksNext(lib, Kept(lib, agg, vs), sumInt, sumFloat, allInt, hasValues, v);
      if IsIntVal(v) {
        sumInt' := AddInt(lib, sumInt, v);
      } else {
        allInt' := false;
        sumFloat' := lib.add(sumFloat, ToFloat(lib, v));
      }
      hasValues' := true;
    }
  }

  lemma SumResult(lib: Library, vs: seq<Value>, sumInt: Int64, sumFloat: real, allInt: bool, hasValues: bool)
    requires SumTracks(lib, vs, sumInt, sumFloat, allInt, hasValues)
    ensures SumOf(lib, vs)
         == if !hasValues then Null else if allInt then Int(sumInt) else Real(lib.add(sumFloat, lib.intToFloat(sumInt)))
  {
  }

  /** SUM's loop. */
  method SumLoop(lib: Library, agg: Aggregate, arg: Row -> Value, rows: seq<Row>)
    returns (sumInt: Int64, sumFloat: real, allInt: bool, hasValues: bool)
    ensures SumTracks(lib, Kept(lib, agg, Arguments(arg, rows)), sumInt, sumFloat, allInt, hasValues)
  {
    sumInt, sumFloat, allInt, hasValues := 0, 0.0, true, false;
    var seen: set<string> := {};
    ghost var vs: seq<Value> := [];
    for i := 0 to |rows|
      invariant vs == Arguments(arg, rows[..i])
      invariant agg.distinct ==> seen == Renderings(lib, vs)
      invariant SumTracks(lib, Kept(lib, agg, vs), sumInt, sumFloat, allInt, hasValues)
    {
      ArgumentsNext(arg, rows, i);
      var v := arg(rows[i]);
      if v != Null {
        seen, sumInt, sumFloat, allInt, hasValues := SumOne(lib, agg, v, vs, seen, sumInt, sumFloat, allInt, hasValues);
        vs := vs + [v];
      }
    }
    assert rows[..|rows|] == rows;
  }

  method EvalSum(lib: Library, agg: Aggregate, arg: Row -> Value, rows: Rows) returns (result: Value)
    requires agg.name.Sum?
    ensures result == CollectedValue(lib, agg, arg, rows)
  {
    var sumInt, sumFloat, allInt, hasValues := SumLoop(lib, agg, arg, rows);
    SumResult(lib, Kept(lib, agg, Arguments(arg, rows)), sumInt, sumFloat, allInt, hasValues);
    if !hasValues {
      return Null;
    }
    if allInt {
      return Int(sumInt);
    }
    result := Real(lib.add(sumFloat, lib.intToFloat(sumInt)));
  }

  method EvalAvg(lib: Library, agg: Aggregate, arg: Row -> Value, rows: Rows) returns (result: Value)
    requires agg.name.Avg?
    ensures result == CollectedValue(lib, agg, arg, rows)
  {
    var sum, count := 0.0, 0;
    ghost var vs: seq<Value> := [];
    for i := 0 to |rows|
      invariant vs == Arguments(arg, rows[..i])
      invariant count == |vs| && sum == AsFloats(lib, vs)
    {
      ArgumentsNext(arg, rows, i);
      var v := arg(rows[i]);
      if v != Null {
        TotalsNext(lib, vs, v);
        vs := vs + [v];
        sum := lib.add(sum, ToFloat(lib, v));
        count := count + 1;
      }
    }
    assert rows[..|rows|] == rows;
    if count == 0 {
      return Null;
    }
    result := Real(lib.div(sum, lib.intToFloat(count)));
  }

  method EvalExtreme(lib: Library, agg: Aggregate, arg: Row -> Value, rows: Rows) returns (result: Value)
    requires agg.name.Min? || agg.name.Max?
    ensures result == CollectedValue(lib, agg, arg, rows)
  {
    result := Null;
    ghost var vs: seq<Value> := [];
    for i := 0 to |rows|
      invariant vs == Arguments(arg, rows[..i])
      invariant result == Extreme(lib, agg.name, vs)
    {
      ArgumentsNext(arg, rows, i);
      var v := arg(rows[i]);
      if v != Null {
        ExtremeNext(lib, agg.name, vs, v);
        vs := vs + [v];
        if result == Null || Beats(lib, agg.name, v, result) {
          result := v;
        }
      }
    }
    assert rows[..|rows|] == rows;
  }
}
